/** Object-store keys, presigned URLs and delete attempts. The object store
    itself is outside the model: a presigned URL is the value that records
    what it grants, and a delete attempt records its key and whether the
    store accepted it. */
module ObjectStorage {
  import opened FileModel

  /** Where the bytes of a file live: `uploads/{ownerId}/{id}`. */
  function StorageKey(ownerId: UserId, id: FileId): (key: string)
    ensures |key| == |"uploads/"| + |ownerId| + 1 + |id|
    ensures key[..|"uploads/"|] == "uploads/" && key[|key| - |id|..] == id
    ensures key[|"uploads/"|..|"uploads/"| + |ownerId|] == ownerId
    ensures key[|key| - |id| - 1] == '/'
  {
    "uploads/" + ownerId + "/" + id
  }

  /** `s.split('/')`: the pieces between separators, at least one. */
  function Split(s: string): (parts: seq<string>)
    ensures |parts| >= 1
    ensures forall p :: p in parts ==> '/' !in p
    decreases |s|
  {
    if s == [] then [""]
    else
      var rest := Split(s[1..]);
      if s[0] == '/' then [""] + rest
      else [[s[0]] + rest[0]] + rest[1..]
  }

  /** `parts.join('/')`. */
  function Join(parts: seq<string>): string
    requires |parts| >= 1
    decreases |parts|
  {
    if |parts| == 1 then parts[0] else parts[0] + "/" + Join(parts[1..])
  }

  /** The webhook's reading of a key: its last `/`-separated segment. */
  function FileIdFromKey(key: string): (id: FileId)
    ensures '/' !in id
  {
    var parts := Split(key);
    parts[|parts| - 1]
  }

  /** Splitting loses nothing: joining the parts gives the string back. */
  lemma {:induction false} JoinSplit(s: string)
    ensures Join(Split(s)) == s
    decreases |s|
  {
    if s != [] {
      var rest := Split(s[1..]);
      JoinSplit(s[1..]);
      if s[0] == '/' {
        assert Split(s) == [""] + rest;
        assert ([""] + rest)[1..] == rest;
      } else if |rest| == 1 {
        assert Join(Split(s)) == [s[0]] + rest[0];
      } else {
        var parts := [[s[0]] + rest[0]] + rest[1..];
        assert parts[1..] == rest[1..];
        assert Join(parts) == [s[0]] + rest[0] + "/" + Join(rest[1..]);
        assert Join(rest) == rest[0] + "/" + Join(rest[1..]);
        assert s == [s[0]] + s[1..];
      }
    }
  }

  /** A separator splits the string into the parts of either side. */
  lemma {:induction false} SplitAtSeparator(a: string, b: string)
    ensures Split(a + "/" + b) == Split(a) + Split(b)
    decreases |a|
  {
    var s := a + "/" + b;
    if a == [] {
      assert s[1..] == b;
    } else {
      assert s[0] == a[0];
      assert s[1..] == a[1..] + "/" + b;
      SplitAtSeparator(a[1..], b);
    }
  }

  /** A string without separators is its own only part. */
  lemma {:induction false} SplitWithoutSeparator(s: string)
    requires '/' !in s
    ensures Split(s) == [s]
    decreases |s|
  {
    if s != [] {
      assert '/' !in s[1..] by {
        forall i | 0 <= i < |s[1..]| ensures s[1..][i] != '/' { assert s[1..][i] == s[i + 1]; }
      }
      SplitWithoutSeparator(s[1..]);
      assert s == [s[0]] + s[1..];
    }
  }

  /** Split and Join are inverse on separator-free parts. */
  lemma {:induction false} SplitJoin(parts: seq<string>)
    requires |parts| >= 1
    requires forall p :: p in parts ==> '/' !in p
    ensures Split(Join(parts)) == parts
    decreases |parts|
  {
    assert parts[0] in parts;
    SplitWithoutSeparator(parts[0]);
    if |parts| > 1 {
      assert forall p :: p in parts[1..] ==> p in parts;
      SplitJoin(parts[1..]);
      SplitAtSeparator(parts[0], Join(parts[1..]));
      assert parts == [parts[0]] + parts[1..];
    }
  }

  /** The id parsed from a key built as `uploads/{ownerId}/{id}` is that id,
      whatever the owner segment holds, as long as the id has no `/`. */
  lemma FileIdOfStorageKey(ownerId: UserId, id: FileId)
    requires '/' !in id
    ensures FileIdFromKey(StorageKey(ownerId, id)) == id
  {
    SplitAtSeparator("uploads/" + ownerId, id);
    SplitWithoutSeparator(id);
  }

  /** Join ends with its last part, preceded by a separator when there is more
      than one part. */
  lemma {:induction false} JoinEndsWithLast(parts: seq<string>)
    requires |parts| >= 1
    ensures var last := parts[|parts| - 1]; var j := Join(parts);
      |last| <= |j| && j[|j| - |last|..] == last
      && (|parts| > 1 ==> |last| < |j| && j[|j| - |last| - 1] == '/')
    decreases |parts|
  {
    if |parts| > 1 {
      JoinEndsWithLast(parts[1..]);
      var rest := Join(parts[1..]);
      var j := parts[0] + "/" + rest;
      assert j[|parts[0]| + 1..] == rest;
      var last := parts[|parts| - 1];
      assert last == parts[1..][|parts[1..]| - 1];
      if |parts[1..]| > 1 {
        assert j[|j| - |last| - 1] == rest[|rest| - |last| - 1];
      } else {
        assert rest == last;
        assert j[|j| - |last| - 1] == '/';
      }
      assert j[|j| - |last|..] == rest[|rest| - |last|..];
    }
  }

  /** The parsed id is the part of the key after its last `/`: a suffix
      with no `/` in it, preceded by `/` unless it is the whole key. */
  lemma LastSegment(key: string)
    ensures var id := FileIdFromKey(key);
      '/' !in id && |id| <= |key| && key[|key| - |id|..] == id
      && (|id| < |key| ==> key[|key| - |id| - 1] == '/')
  {
    var parts := Split(key);
    assert parts[|parts| - 1] in parts;
    JoinSplit(key);
    JoinEndsWithLast(parts);
  }

  /** What a presigned URL is asked for. */
  datatype Intent = Read | Write

  /** Lifetime, in seconds, of every presigned URL. */
  const UrlTtlSeconds: nat := 300

  /** A presigned URL stands for the one operation it grants on one key. */
  datatype PresignedUrl = PresignedUrl(key: string, intent: Intent, expiresIn: nat)

  function Presign(key: string, intent: Intent): PresignedUrl
  {
    PresignedUrl(key, intent, UrlTtlSeconds)
  }

  /** One delete request sent to the object store, and whether it succeeded. */
  datatype DeleteAttempt = DeleteAttempt(key: string, succeeded: bool)
}
