/** The metadata row of one stored file and its lifecycle status. */
module FileModel {

  datatype Option<+T> = None | Some(value: T)

  type FileId = string
  type UserId = string

  /** An instant, as read from the clock a handler is given. */
  type Time = int

  /** The five lifecycle states a file record can be in. */
  datatype FileStatus = Pending | Available | Failed | Deleting | Deleted
  {
    /** The string value that stands for this state in the table. */
    function Name(): string
    {
      match this
      case Pending => "PENDING"
      case Available => "AVAILABLE"
      case Failed => "FAILED"
      case Deleting => "DELETING"
      case Deleted => "DELETED"
    }
  }

  const AllStatuses: set<FileStatus> := {Pending, Available, Failed, Deleting, Deleted}

  /** The state a stored string value denotes, if any. */
  function StatusFromName(name: string): (s: Option<FileStatus>)
    ensures s.Some? ==> s.value.Name() == name
  {
    if name == "PENDING" then Some(Pending)
    else if name == "AVAILABLE" then Some(Available)
    else if name == "FAILED" then Some(Failed)
    else if name == "DELETING" then Some(Deleting)
    else if name == "DELETED" then Some(Deleted)
    else None
  }

  /** Every state's string value denotes that state and no other. */
  lemma StatusNameRoundTrip(s: FileStatus)
    ensures StatusFromName(s.Name()) == Some(s)
    ensures forall s': FileStatus :: s'.Name() == s.Name() ==> s' == s
  {
    match s
    case Pending =>
    case Available =>
    case Failed =>
    case Deleting =>
    case Deleted =>
  }

  /** The literals written as bare strings in the webhook handlers denote enum states. */
  lemma WebhookLiteralsAreStatuses()
    ensures StatusFromName("PENDING") == Some(Pending)
    ensures StatusFromName("AVAILABLE") == Some(Available)
    ensures StatusFromName("DELETED") == Some(Deleted)
  {
  }

  /** The status ranges over exactly five distinct values. */
  lemma ExactlyFiveStatuses()
    ensures forall s: FileStatus :: s in AllStatuses
    ensures |AllStatuses| == 5
  {
    forall s: FileStatus ensures s in AllStatuses {
      assert s.Pending? || s.Available? || s.Failed? || s.Deleting? || s.Deleted?;
    }
    assert AllStatuses == {Pending} + {Available} + {Failed} + {Deleting} + {Deleted};
  }

  /** One row of the `files` table. `size` may be null; the two completion
      instants may be absent or null, both written None here. */
  datatype FileRecord = FileRecord(
    id: FileId,
    filename: string,
    contentType: string,
    size: Option<int>,
    ownerId: UserId,
    createdAt: Time,
    completedAt: Option<Time>,
    deletedAt: Option<Time>,
    status: FileStatus)

  /** The projection that the delete handler locks: id and owner only. */
  datatype LockedFileRow = LockedFileRow(id: FileId, ownerId: UserId)

  function Locked(f: FileRecord): LockedFileRow
  {
    LockedFileRow(f.id, f.ownerId)
  }

  /** The `files` table, keyed by the primary key `id`. */
  type Table = map<FileId, FileRecord>

  /** Every row is stored under its own id. */
  predicate WellKeyed(t: Table)
  {
    forall k :: k in t ==> t[k].id == k
  }
}
