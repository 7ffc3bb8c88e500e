# File lifecycle of the file-sharing service

This project models the file-lifecycle core of a small file-sharing service
and proves properties of that model.

In the service, each stored file has one row in a `files` metadata table, and the
bytes live in an object store under the key `uploads/{ownerId}/{id}`. A file
moves through five statuses:

- An owner's upload creates PENDING rows and hands out one presigned write URL per row.
- The object store's webhook confirms each created object, and its row becomes AVAILABLE.
- An owner's delete marks the rows DELETING and asks the object store to remove the objects.
- The store's removal notices make the rows DELETED.

The model keeps the table as a `map` from file id to record. Files and modules:

- `file_model.dfy` (`FileModel`): the record, the `FileStatus` enum with its
  string values, and the locked-row projection.
- `object_storage.dfy` (`ObjectStorage`): storage keys and the webhook's
  key-to-id parse, written as JavaScript's `split('/')` and last element.
  Presigned URLs are values recording key, intent and the 300-second lifetime.
  It also holds the object-delete attempt record.
- `file_controllers.dfy` (`FileControllers`): the four owner-facing handlers.
  - Listing and viewing only read the table, so they are functions of it.
  - Upload and delete are specified by the table and the response they produce.
- `minio_controllers.dfy` (`MinioControllers`): the webhook reconciler, as
  functions of the table.
  - One status-guarded update per event.
  - One pass per handler, which stops at the first store error.
  - The webhook runs the creation pass and then the removal pass.
- `handlers.dfy` (`Handlers`): class `FileService`, which holds the table as
  a field. It has one method per handler that changes the table. Each method
  is written as the source's loops and is proved to produce exactly the table
  and answer of the specification function above.
- `lifecycle.dfy` (`Lifecycle`): end-to-end properties across both controllers.

Inputs the handlers take from the outside world are parameters:

- The caller's identity, as `Option<UserId>`.
- The clock.
- The ids the database assigns.
- Whether a transaction commits (`txOk`).
- Which webhook updates the store fails (`faults`, a set of record indices).
- Whether each object delete succeeds.

The model follows the code in three places where the service's documented
design differs from it:

- A removal notice moves any row that is not DELETED to DELETED, including a
  PENDING one (`MinioControllers.RemovalDeletesPendingRecord`).
- Deleting re-marks a row DELETING whatever its status, including DELETED
  (`FileControllers.DeleteReopensDeletedRecord`).
- A creation notice matches on the id alone. The bucket and the owner segment
  of the key are ignored (`MinioControllers.CreationIgnoresOwnerSegment`).

## Model

| member | source | states |
|---|---|---|
| FileModel.StatusNameRoundTrip | src/models/file.ts:15-21 | each status's string value maps back to that status, and no other status has the same value |
| FileModel.WebhookLiteralsAreStatuses | src/models/file.ts:15-21 | the bare literals 'PENDING', 'AVAILABLE' and 'DELETED' used by the webhook denote the enum's states |
| FileModel.ExactlyFiveStatuses | src/models/file.ts:10 | every status is one of PENDING, AVAILABLE, FAILED, DELETING, DELETED, and these five are distinct |
| ObjectStorage.Split | src/controllers/minio.controllers.ts:39 | `split('/')` yields at least one part, and no part contains `/` |
| ObjectStorage.JoinSplit | src/controllers/minio.controllers.ts:39 | joining the parts of a split with `/` gives back the key unchanged |
| ObjectStorage.SplitJoin | src/controllers/minio.controllers.ts:39 | splitting the `/`-join of `/`-free parts gives back those parts |
| ObjectStorage.LastSegment | src/controllers/minio.controllers.ts:39-40 | the parsed id is the `/`-free suffix of the key after its last `/` (or the whole key) |
| ObjectStorage.StorageKey | src/controllers/file.controllers.ts:101 | the key is `uploads/`, then exactly the owner id, then `/`, then exactly the file id, and nothing else |
| ObjectStorage.FileIdFromKey | src/controllers/minio.controllers.ts:39-40 | the id the webhook reads from a key never contains `/` |
| ObjectStorage.FileIdOfStorageKey | src/controllers/file.controllers.ts:101 | the id parsed from `uploads/{ownerId}/{id}` is `id` whenever `id` has no `/`, whatever the owner segment holds |
| FileControllers.GetAllFiles | src/controllers/file.controllers.ts:13-21 | 401 exactly without an identity; otherwise the listing holds exactly the caller's AVAILABLE rows, each as stored |
| FileControllers.HandleFileView | src/controllers/file.controllers.ts:43-64 | 401 exactly without an identity; a read URL exactly when a row with that id and owner exists, whatever its status, for key `uploads/{owner}/{id}` with a 300-second lifetime; otherwise 404 |
| FileControllers.InsertAll | src/controllers/file.controllers.ts:86-97 | inserting records adds exactly their ids, keeps every row under its own id, and leaves other rows alone |
| FileControllers.InsertNewRecords | src/controllers/file.controllers.ts:86-97 | creating one row per fresh id adds exactly those ids (the table grows by the number of requests), leaves old rows unchanged, and stores each new row under its id |
| FileControllers.UploadOutcome | src/controllers/file.controllers.ts:72-118 | 401 exactly without an identity, 500 exactly when a non-empty request's transaction fails; every answer but 200 leaves the table as it was, and a 200 keeps every old row and gives one slot per assigned id |
| FileControllers.UploadCreatesPendingRecords | src/controllers/file.controllers.ts:74-111 | 401 without an identity, 400 for a missing or empty list, and no change on any refusal or failed transaction; otherwise one PENDING row per request, owned by the caller, with one write URL per row in request order for `uploads/{owner}/{id}` |
| FileControllers.LockedIds | src/controllers/file.controllers.ts:136-141 | the locked ids are requested ids of existing rows owned by the caller, and every requested id of such a row is locked, once however often it is requested |
| FileControllers.LockedCount | src/controllers/file.controllers.ts:136-143 | the locked rows are never more than the requested ids, and exactly as many when the ids are distinct and all name the caller's rows |
| FileControllers.MarkDeleting | src/controllers/file.controllers.ts:147-150 | the update keeps every row and every field but the status, leaves every row that is not a requested row of the caller's exactly as it was, and a row is DELETING afterwards exactly when it was already or it is a requested row of the caller's |
| FileControllers.DeleteOutcome | src/controllers/file.controllers.ts:120-180 | 401 exactly without an identity, 400 exactly for a missing or empty id list, 500 exactly when the transaction fails; no row is added or removed, and every answer but 200 leaves the table as it was |
| FileControllers.DeleteAllOrNothing | src/controllers/file.controllers.ts:135-153 | 403 exactly when some requested id is unknown, foreign or repeated; success exactly when none is; any refusal changes no row |
| FileControllers.DeleteMarksExactlyRequested | src/controllers/file.controllers.ts:147-150 | on success each requested row becomes DELETING whatever its status, with every other field kept, and every other row is unchanged |
| FileControllers.DeleteReopensDeletedRecord | src/controllers/file.controllers.ts:147-150 | an owner's delete of an already DELETED row succeeds and makes it DELETING again |
| FileControllers.NoIdentityIsUnauthorized | src/controllers/file.controllers.ts:13-17 | without an identity, list, view, upload and delete all answer 401 and leave the table unchanged |
| MinioControllers.KindsExclusive | src/controllers/minio.controllers.ts:28-31 | no event name starts with both the creation prefix and the removal prefix |
| MinioControllers.UpdateIfPending | src/controllers/minio.controllers.ts:41-51 | the creation update matches at most one row, and matches exactly when the row exists and is PENDING; afterwards that row is not PENDING; zero matches change nothing |
| MinioControllers.UpdateUnlessDeleted | src/controllers/minio.controllers.ts:83-92 | the removal update matches at most one row, and matches exactly when the row exists and is not DELETED; afterwards that row is DELETED; zero matches change nothing |
| MinioControllers.ApplyEventEffect | src/controllers/minio.controllers.ts:39-57 | the update one event makes (`ApplyEvent`) matches at most the row named by its key, and matches it exactly when the row is unsettled; a match makes the kind's transition for that event (creation: PENDING to AVAILABLE with the size the event reports and the completion time; removal: not DELETED to DELETED with the deletion time), and zero matches change nothing |
| MinioControllers.Pass | src/controllers/minio.controllers.ts:27-63 | a pass neither adds nor removes rows, keeps every row under its own id, and can only fail at a record of the batch whose update the store fails |
| MinioControllers.PassStopsAtFirstError | src/controllers/minio.controllers.ts:59-62 | a pass fails at the first matching event whose update throws; the events before it stay applied and nothing after it runs |
| MinioControllers.PassErrorIsFinal | src/controllers/minio.controllers.ts:100-103 | after the failing event, the remaining events of the batch change nothing |
| MinioControllers.PassFrame | src/controllers/minio.controllers.ts:41-45 | a row that no matching event of the batch names comes out of a pass unchanged |
| MinioControllers.PassTransitions | src/controllers/minio.controllers.ts:83-92 | each row after a pass is either unchanged, or changed by the kind's transition for one matching event whose key names it (for creation, with that event's size) |
| MinioControllers.PassSettlesEvent | src/controllers/minio.controllers.ts:41-51 | after a pass that does not fail, the row named by any one of its matching events is settled |
| MinioControllers.PassSettles | src/controllers/minio.controllers.ts:41-51 | after a pass that does not fail, every row named by one of its events is settled |
| MinioControllers.SettledPassIsNoOp | src/controllers/minio.controllers.ts:53-54 | a pass whose events name only settled rows changes nothing, at any time and whatever the store fails |
| MinioControllers.PassReplayIsNoOp | src/controllers/minio.controllers.ts:94-95 | replaying a batch that a pass has fully applied changes no row |
| MinioControllers.Handler | src/controllers/minio.controllers.ts:22-27 | a handler refuses exactly a payload without a `Records` array, and then changes nothing; it never adds or removes rows, keeps rows under their ids, and reports a store error only at a record of the batch whose update fails |
| MinioControllers.Webhook | src/controllers/minio.controllers.ts:107-135 | 400 exactly for a payload without a `Records` array, with the table unchanged; the webhook never adds or removes rows and keeps rows under their ids |
| MinioControllers.MalformedPayloadChangesNothing | src/controllers/minio.controllers.ts:114-117 | a payload without a `Records` array is refused by each handler and by the webhook (400), and no row changes |
| MinioControllers.CreationFailureSkipsRemoval | src/controllers/minio.controllers.ts:122-133 | a failed creation pass answers 500, skips the removal pass, and keeps the updates made before the failing event |
| MinioControllers.RemovalFailureAnswers500 | src/controllers/minio.controllers.ts:100-103 | when the creation pass does not fail and the removal pass fails at an event, that event is a removal the store fails; the webhook answers 500, and the creation updates and the removal updates before that event stay applied |
| MinioControllers.WebhookAnswers200Exactly | src/controllers/minio.controllers.ts:122-133 | the webhook answers 200 exactly when the store fails the update of no creation event and of no removal event in the batch |
| MinioControllers.WebhookReplayIsNoOp | src/controllers/minio.controllers.ts:119-123 | redelivering a batch the webhook has processed changes no row |
| MinioControllers.Only | src/controllers/minio.controllers.ts:119-120 | the events of one kind are events of the batch with that kind's prefix; there are none unless the batch has some |
| MinioControllers.PassAppliesItsEventsInOrder | src/controllers/minio.controllers.ts:27-31 | a pass the store never fails applies the events of its kind in batch order and skips the rest |
| MinioControllers.CreationEventsApplyFirst | src/controllers/minio.controllers.ts:119-123 | whatever their positions, all creation events are applied before any removal event, and, when the store fails no update, the webhook answers 200 |
| MinioControllers.CreationIgnoresOwnerSegment | src/controllers/minio.controllers.ts:41-45 | a creation event confirms a PENDING row from its id alone, whatever the bucket and owner segment of the key |
| MinioControllers.RemovalDeletesPendingRecord | src/controllers/minio.controllers.ts:83-92 | a removal event moves a PENDING row straight to DELETED and sets its deletion time |
| Handlers.StageCreates | src/controllers/file.controllers.ts:86-97 | the transaction's creates, one per request in order, give exactly the specified new rows and staged table |
| Handlers.PresignUploads | src/controllers/file.controllers.ts:99-111 | one write URL per created row, in creation order |
| Handlers.FileService.HandleFileUpload | src/controllers/file.controllers.ts:72-118 | the new table and the answer are exactly those of `UploadOutcome`, whose properties `UploadCreatesPendingRecords` states |
| Handlers.FileService.HandleFileDelete | src/controllers/file.controllers.ts:120-181 | the new table and answer are exactly those of `DeleteOutcome`; on success there is one delete attempt per requested row, keyed `uploads/{owner}/{id}`, in order; a failed attempt changes neither answer nor table; on refusal there are no attempts |
| Handlers.FileService.MarkAvailableIfPending | src/controllers/minio.controllers.ts:41-51 | the conditional update PENDING to AVAILABLE, and its match count |
| Handlers.FileService.MarkDeletedUnlessDeleted | src/controllers/minio.controllers.ts:83-92 | the conditional update not DELETED to DELETED, and its match count |
| Handlers.FileService.ObjectCreationHandler | src/controllers/minio.controllers.ts:22-64 | the loop leaves exactly the table of the creation pass, and reports the failing event or an invalid payload as the pass does |
| Handlers.FileService.ObjectDeletionHandler | src/controllers/minio.controllers.ts:66-105 | the loop leaves exactly the table of the removal pass, and reports the failing event or an invalid payload as the pass does |
| Handlers.FileService.HandleMinIOWebhook | src/controllers/minio.controllers.ts:107-135 | the new table and the answer (400, 200 or 500) are exactly those of `Webhook` |
| Lifecycle.SingleEventWebhook | src/controllers/minio.controllers.ts:119-123 | a webhook carrying one event applies exactly that event's update and, when the store fails no update, answers 200 |
| Lifecycle.UploadedRow | src/controllers/file.controllers.ts:86-109 | the row an upload creates for a request is PENDING with the request's fields, and its write URL's key is `uploads/{owner}/{id}` |
| Lifecycle.CreationNoticeListsRow | src/controllers/minio.controllers.ts:41-51 | the creation notice for a PENDING row's key makes that row AVAILABLE and puts it in its owner's listing |
| Lifecycle.UploadedFileBecomesListed | src/controllers/file.controllers.ts:86-111 | after an upload, the creation notice for a handed-out write key makes that row AVAILABLE with the reported size and lists it for its owner |
| Lifecycle.DeletedFileLeavesListing | src/controllers/file.controllers.ts:147-150 | deleting an AVAILABLE row makes it DELETING and drops it from the listing; the removal notice for its key then makes it DELETED with its deletion time |

## Left out

- Authentication: the token middleware, password hashing and sign-up are not
  part of this model. The caller's identity is a parameter.
  - The middleware stores the user on `req.body.user` (src/middlewares/auth.ts:14),
    while the controllers read `req.user`. This request plumbing is not modelled.
- Response shaping by the zod DTOs is not modelled. Listing is the table filter.
  - `getAllFiles` hands `Number(size)` to a `z.bigint()` field
    (src/controllers/file.controllers.ts:27, src/dto/file.response.ts:6). That
    parse throws for the caller's files, which would turn the listing into a 500.
- Store failures of listing and viewing (their 500 answers) are not modelled. Those two handlers change nothing.
- Presigning is a total function here. The 500 that a failed presign would give after the upload transaction commits is not modelled.
- Concurrency: the `FOR UPDATE` row locks and interleaved requests are not
  modelled. Each transaction is one atomic step on the map.
- The row order of the locking query is not specified by the source. The model takes request order.
- Id generation and the PENDING default come from the database schema, which
  is not part of this model.
  - New ids are a parameter, required to be distinct and absent from the table.
  - New rows are PENDING.
- Clock: every timestamp of one handler call is one `now` parameter. The source reads the clock per record.
- Logging and correlation ids are left out.
- Router and server wiring are left out.
  - The webhook router is mounted before the JSON body parser
    (src/index.ts:15-17), so in the server as wired `req.body` is undefined there.
    Reading `webhook.Records` then throws (src/controllers/minio.controllers.ts:112-114),
    and every delivery gets the 500 of lines 127-133. The 400 and 200 answers
    proved for `Webhook` are reachable only once a body parser runs first.
- Handlers.FileService.ObjectCreationHandler: a non-integer `size` that
  `BigInt(size)` rejects is not distinguished from other store failures.
  Sizes are integers here, and any throwing update is an index in `faults`.
- The webhook handlers take the `Records` array as decoded records. URL-encoding of object keys is outside the model.
- The status transitions that the design lists but no handler performs are not modelled, because no code writes them. This covers FAILED and the resolution of a DELETING row other than by a removal notice.
