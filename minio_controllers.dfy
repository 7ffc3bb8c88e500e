/** The webhook reconciler. Object-store notifications move a record from
    PENDING to AVAILABLE (an object was created) and from any status but
    DELETED to DELETED (an object was removed). Each handler makes one pass
    over the batch with one status-guarded update per event; the webhook
    entry point runs the creation pass, then the removal pass. The functions
    here give the table and answer each produces; the handler methods of
    class Handlers.FileService are proved to compute exactly these. */
module MinioControllers {
  import opened FileModel
  import opened ObjectStorage

  /** One entry of the notification's `Records` array. */
  datatype MinioRecord = MinioRecord(eventName: string, bucket: string, key: string, size: int, eTag: string)

  const ObjectCreatedPrefix: string := "s3:ObjectCreated:"
  const ObjectRemovedPrefix: string := "s3:ObjectRemoved:"

  /** The two handlers, by the events they act on. */
  datatype EventKind = ObjectCreated | ObjectRemoved
  {
    function Prefix(): string
    {
      match this
      case ObjectCreated => ObjectCreatedPrefix
      case ObjectRemoved => ObjectRemovedPrefix
    }
  }

  /** `record.eventName.startsWith(prefix)`. */
  predicate Matches(kind: EventKind, r: MinioRecord)
  {
    kind.Prefix() <= r.eventName
  }

  /** `Records.some(...)` for the kind's prefix. */
  predicate HasEvents(kind: EventKind, recs: seq<MinioRecord>)
  {
    exists i :: 0 <= i < |recs| && Matches(kind, recs[i])
  }

  /** No event name starts with both prefixes. */
  lemma KindsExclusive(r: MinioRecord)
    ensures Matches(ObjectCreated, r) ==> !Matches(ObjectRemoved, r)
  {
    if Matches(ObjectCreated, r) {
      assert r.eventName[9] == ObjectCreatedPrefix[9] == 'C' != ObjectRemovedPrefix[9];
    }
  }

  // ---------------------------------------------------------------- one update

  /** The outcome of one `updateMany`: the table after it, and how many rows it matched. */
  datatype Update = Update(table: Table, count: nat)

  /** `updateMany({ id, status: 'PENDING' })` to AVAILABLE with the reported size. */
  function UpdateIfPending(t: Table, fileId: FileId, size: int, now: Time): (u: Update)
    ensures u.table.Keys == t.Keys
    ensures u.count == 1 <==> fileId in t && t[fileId].status == Pending
    ensures u.count == 0 ==> u.table == t
    ensures u.count <= 1
    ensures forall k :: k in t && k != fileId ==> u.table[k] == t[k]
    ensures fileId in t ==> u.table[fileId].status != Pending
  {
    if fileId in t && t[fileId].status == Pending then
      Update(t[fileId := t[fileId].(status := Available, size := Some(size), completedAt := Some(now))], 1)
    else Update(t, 0)
  }

  /** `updateMany({ id, status: { not: 'DELETED' } })` to DELETED. */
  function UpdateUnlessDeleted(t: Table, fileId: FileId, now: Time): (u: Update)
    ensures u.table.Keys == t.Keys
    ensures u.count == 1 <==> fileId in t && t[fileId].status != Deleted
    ensures u.count == 0 ==> u.table == t
    ensures u.count <= 1
    ensures forall k :: k in t && k != fileId ==> u.table[k] == t[k]
    ensures fileId in t ==> u.table[fileId].status == Deleted
  {
    if fileId in t && t[fileId].status != Deleted then
      Update(t[fileId := t[fileId].(status := Deleted, deletedAt := Some(now))], 1)
    else Update(t, 0)
  }

  /** The update one event makes. Only the id parsed from the key is used:
      the bucket and the owner segment of the key play no part. */
  function ApplyEvent(kind: EventKind, t: Table, r: MinioRecord, now: Time): Update
  {
    var fileId := FileIdFromKey(r.key);
    match kind
    case ObjectCreated => UpdateIfPending(t, fileId, r.size, now)
    case ObjectRemoved => UpdateUnlessDeleted(t, fileId, now)
  }

  /** A record an event of this kind has nothing left to do to. */
  predicate Settled(kind: EventKind, f: FileRecord)
  {
    match kind
    case ObjectCreated => f.status != Pending
    case ObjectRemoved => f.status == Deleted
  }

  /** The one change event `r` of this kind may make to a record: creation
      sets the size `r` reports and the completion time, removal the deletion time. */
  predicate Transition(kind: EventKind, r: MinioRecord, before: FileRecord, after: FileRecord, now: Time)
  {
    match kind
    case ObjectCreated =>
      && before.status == Pending
      && after == before.(status := Available, size := Some(r.size), completedAt := Some(now))
    case ObjectRemoved =>
      && before.status != Deleted
      && after == before.(status := Deleted, deletedAt := Some(now))
  }

  /** One event touches at most the row its key names: it matches that row
      exactly when the row is not yet settled, changes it only by the kind's
      transition, and leaves it settled; zero matches change nothing. */
  lemma ApplyEventEffect(kind: EventKind, t: Table, r: MinioRecord, now: Time)
    ensures var u := ApplyEvent(kind, t, r, now); var id := FileIdFromKey(r.key);
      && u.table.Keys == t.Keys
      && u.count <= 1
      && (u.count == 1 <==> id in t && !Settled(kind, t[id]))
      && (u.count == 0 ==> u.table == t)
      && (forall k :: k in t && k != id ==> u.table[k] == t[k])
      && (id in t ==> Settled(kind, u.table[id]))
      && (u.count == 1 ==> Transition(kind, r, t[id], u.table[id], now))
  {
  }

  // ---------------------------------------------------------------- one pass

  /** Where a pass stopped: the table, and the index of the record whose
      update threw, if one did. */
  datatype PassOutcome = PassOutcome(table: Table, error: Option<nat>)

  /** One handler's loop over the batch. `faults` holds the indices of the
      records whose update the store fails; the first such matching record
      ends the pass, and the updates before it stay applied. */
  function Pass(kind: EventKind, t: Table, recs: seq<MinioRecord>, now: Time, faults: set<nat>): (p: PassOutcome)
    ensures p.table.Keys == t.Keys
    ensures WellKeyed(t) ==> WellKeyed(p.table)
    ensures p.error.Some? ==> p.error.value < |recs| && p.error.value in faults
    decreases |recs|
  {
    if recs == [] then PassOutcome(t, None)
    else
      var i := |recs| - 1;
      var prev := Pass(kind, t, recs[..i], now, faults);
      if prev.error.Some? || !Matches(kind, recs[i]) then prev
      else if i in faults then PassOutcome(prev.table, Some(i))
      else PassOutcome(ApplyEvent(kind, prev.table, recs[i], now).table, None)
  }

  /** A pass fails at the first matching record whose update throws, keeps
      what the records before it did, and does nothing after it. */
  lemma {:induction false} PassStopsAtFirstError(kind: EventKind, t: Table, recs: seq<MinioRecord>, now: Time, faults: set<nat>)
    ensures var p := Pass(kind, t, recs, now, faults);
      match p.error
      case None => forall j :: 0 <= j < |recs| && Matches(kind, recs[j]) ==> j !in faults
      case Some(i) =>
        && i < |recs| && Matches(kind, recs[i]) && i in faults
        && (forall j :: 0 <= j < i && Matches(kind, recs[j]) ==> j !in faults)
        && p.table == Pass(kind, t, recs[..i], now, faults).table
    decreases |recs|
  {
    if recs != [] {
      var n := |recs| - 1;
      var init := recs[..n];
      PassStopsAtFirstError(kind, t, init, now, faults);
      assert forall j :: 0 <= j < n ==> init[j] == recs[j];
      var prev := Pass(kind, t, init, now, faults);
      if prev.error.Some? {
        var i := prev.error.value;
        assert init[..i] == recs[..i];
      }
    }
  }

  /** Once a pass has failed, the records after the failing one change nothing. */
  lemma {:induction false} PassErrorIsFinal(kind: EventKind, t: Table, recs: seq<MinioRecord>, m: nat, now: Time, faults: set<nat>)
    requires m <= |recs|
    requires Pass(kind, t, recs[..m], now, faults).error.Some?
    ensures Pass(kind, t, recs, now, faults) == Pass(kind, t, recs[..m], now, faults)
    decreases |recs| - m
  {
    if m < |recs| {
      var n := |recs| - 1;
      assert recs[..n][..m] == recs[..m];
      PassErrorIsFinal(kind, t, recs[..n], m, now, faults);
    } else {
      assert recs[..m] == recs;
    }
  }

  /** A row no matching event of the batch names comes out of a pass unchanged. */
  lemma {:induction false} PassFrame(kind: EventKind, t: Table, recs: seq<MinioRecord>, now: Time, faults: set<nat>, k: FileId)
    requires k in t
    requires forall j :: 0 <= j < |recs| && Matches(kind, recs[j]) ==> FileIdFromKey(recs[j].key) != k
    ensures Pass(kind, t, recs, now, faults).table[k] == t[k]
    decreases |recs|
  {
    if recs != [] {
      var n := |recs| - 1;
      var init := recs[..n];
      forall j | 0 <= j < n && Matches(kind, init[j]) ensures FileIdFromKey(init[j].key) != k {
        assert init[j] == recs[j];
      }
      PassFrame(kind, t, init, now, faults, k);
      var prev := Pass(kind, t, init, now, faults);
      if prev.error.None? && Matches(kind, recs[n]) && n !in faults {
        ApplyEventEffect(kind, prev.table, recs[n], now);
      }
    }
  }

  /** Every row a pass changes was changed once, by the transition of a
      matching event that names it. */
  lemma {:induction false} PassTransitions(kind: EventKind, t: Table, recs: seq<MinioRecord>, now: Time, faults: set<nat>, k: FileId)
    requires k in t
    ensures var r := Pass(kind, t, recs, now, faults).table;
      && k in r
      && (r[k] == t[k] || exists j :: 0 <= j < |recs| && Matches(kind, recs[j]) && FileIdFromKey(recs[j].key) == k
                                      && Transition(kind, recs[j], t[k], r[k], now))
    decreases |recs|
  {
    if recs != [] {
      var n := |recs| - 1;
      PassTransitions(kind, t, recs[..n], now, faults, k);
      var prev := Pass(kind, t, recs[..n], now, faults);
      var r := Pass(kind, t, recs, now, faults).table;
      ApplyEventEffect(kind, prev.table, recs[n], now);
      if r[k] != t[k] {
        if prev.table[k] == t[k] {
          assert FileIdFromKey(recs[n].key) == k && Transition(kind, recs[n], t[k], r[k], now);
        } else {
          var j :| 0 <= j < n && Matches(kind, recs[..n][j]) && FileIdFromKey(recs[..n][j].key) == k
                   && Transition(kind, recs[..n][j], t[k], prev.table[k], now);
          assert recs[..n][j] == recs[j];
          assert r[k] == prev.table[k];
        }
      }
    }
  }

  /** Whether the row an event names is settled for that event's kind. */
  predicate EventSettled(kind: EventKind, t: Table, r: MinioRecord)
  {
    var id := FileIdFromKey(r.key);
    id in t ==> Settled(kind, t[id])
  }

  /** An event leaves settled rows settled and settles the row it names. */
  lemma EventSettlesRows(kind: EventKind, t: Table, r: MinioRecord, now: Time, x: MinioRecord)
    ensures EventSettled(kind, t, x) ==> EventSettled(kind, ApplyEvent(kind, t, r, now).table, x)
    ensures EventSettled(kind, ApplyEvent(kind, t, r, now).table, r)
  {
    ApplyEventEffect(kind, t, r, now);
  }

  /** The last step of a pass that did not fail: the last event's update, if it matches. */
  lemma PassLastStep(kind: EventKind, t: Table, recs: seq<MinioRecord>, now: Time, faults: set<nat>)
    requires recs != [] && Pass(kind, t, recs, now, faults).error.None?
    ensures var n := |recs| - 1; var prev := Pass(kind, t, recs[..n], now, faults);
      && prev.error.None?
      && Pass(kind, t, recs, now, faults).table
         == if Matches(kind, recs[n]) then ApplyEvent(kind, prev.table, recs[n], now).table else prev.table
  {
  }

  /** After a pass that did not fail, the row named by any one of its events is settled. */
  lemma {:induction false} PassSettlesEvent(kind: EventKind, t: Table, recs: seq<MinioRecord>, now: Time, faults: set<nat>, j: nat)
    requires Pass(kind, t, recs, now, faults).error.None?
    requires j < |recs| && Matches(kind, recs[j])
    ensures EventSettled(kind, Pass(kind, t, recs, now, faults).table, recs[j])
    decreases |recs|
  {
    var n := |recs| - 1;
    var init := recs[..n];
    PassLastStep(kind, t, recs, now, faults);
    var prev := Pass(kind, t, init, now, faults).table;
    if j < n {
      assert init[j] == recs[j];
      PassSettlesEvent(kind, t, init, now, faults, j);
    }
    if Matches(kind, recs[n]) {
      EventSettlesRows(kind, prev, recs[n], now, recs[j]);
    }
  }

  /** After a pass that did not fail, every row named by one of its events is settled. */
  lemma PassSettles(kind: EventKind, t: Table, recs: seq<MinioRecord>, now: Time, faults: set<nat>)
    requires Pass(kind, t, recs, now, faults).error.None?
    ensures var r := Pass(kind, t, recs, now, faults).table;
      forall j :: 0 <= j < |recs| && Matches(kind, recs[j]) ==> EventSettled(kind, r, recs[j])
  {
    forall j | 0 <= j < |recs| && Matches(kind, recs[j])
      ensures EventSettled(kind, Pass(kind, t, recs, now, faults).table, recs[j])
    {
      PassSettlesEvent(kind, t, recs, now, faults, j);
    }
  }

  /** A pass over events whose rows are all settled changes nothing, at any
      time and whatever the store fails. */
  lemma {:induction false} SettledPassIsNoOp(kind: EventKind, t: Table, recs: seq<MinioRecord>, now: Time, faults: set<nat>)
    requires forall j :: 0 <= j < |recs| && Matches(kind, recs[j]) ==> EventSettled(kind, t, recs[j])
    ensures Pass(kind, t, recs, now, faults).table == t
    decreases |recs|
  {
    if recs != [] {
      var n := |recs| - 1;
      assert forall j :: 0 <= j < n ==> recs[..n][j] == recs[j];
      SettledPassIsNoOp(kind, t, recs[..n], now, faults);
      ApplyEventEffect(kind, t, recs[n], now);
    }
  }

  /** Replaying a batch a pass has fully applied is a no-op: zero rows match. */
  lemma PassReplayIsNoOp(kind: EventKind, t: Table, recs: seq<MinioRecord>, now: Time, faults: set<nat>,
                         now': Time, faults': set<nat>)
    requires Pass(kind, t, recs, now, faults).error.None?
    ensures var r := Pass(kind, t, recs, now, faults).table;
      Pass(kind, r, recs, now', faults').table == r
  {
    PassSettles(kind, t, recs, now, faults);
    SettledPassIsNoOp(kind, Pass(kind, t, recs, now, faults).table, recs, now', faults');
  }

  // ---------------------------------------------------------------- the handlers

  datatype HandlerOutcome =
    | Completed
    | InvalidPayload        // `Records` missing or not an array
    | StoreError(index: nat)  // the update for this record threw

  datatype HandlerResult = HandlerResult(table: Table, outcome: HandlerOutcome)

  /** `objectCreationHandler` (ObjectCreated) or `objectDeletionHandler`
      (ObjectRemoved); a payload without a `Records` array is None. */
  function Handler(kind: EventKind, t: Table, payload: Option<seq<MinioRecord>>, now: Time, faults: set<nat>): (h: HandlerResult)
    ensures h.outcome.InvalidPayload? <==> payload.None?
    ensures h.outcome.InvalidPayload? ==> h.table == t
    ensures h.table.Keys == t.Keys
    ensures WellKeyed(t) ==> WellKeyed(h.table)
    ensures h.outcome.StoreError? ==> h.outcome.index < |payload.value| && h.outcome.index in faults
  {
    match payload
    case None => HandlerResult(t, InvalidPayload)
    case Some(recs) =>
      var p := Pass(kind, t, recs, now, faults);
      HandlerResult(p.table, if p.error.Some? then StoreError(p.error.value) else Completed)
  }

  datatype WebhookResponse =
    | WebhookInvalidPayload  // 400
    | WebhookProcessed       // 200
    | WebhookFailed          // 500

  datatype WebhookResult = WebhookResult(table: Table, response: WebhookResponse)

  /** `handleMinIOWebhook`: the creation handler if any event is a creation,
      then, if that did not throw, the removal handler if any event is a removal. */
  function Webhook(t: Table, payload: Option<seq<MinioRecord>>, now: Time,
                   createFaults: set<nat>, removeFaults: set<nat>): (w: WebhookResult)
    ensures w.response.WebhookInvalidPayload? <==> payload.None?
    ensures w.response.WebhookInvalidPayload? ==> w.table == t
    ensures w.table.Keys == t.Keys
    ensures WellKeyed(t) ==> WellKeyed(w.table)
  {
    match payload
    case None => WebhookResult(t, WebhookInvalidPayload)
    case Some(recs) =>
      var created :=
        if HasEvents(ObjectCreated, recs) then Handler(ObjectCreated, t, payload, now, createFaults)
        else HandlerResult(t, Completed);
      if created.outcome != Completed then WebhookResult(created.table, WebhookFailed)
      else
        var removed :=
          if HasEvents(ObjectRemoved, recs) then Handler(ObjectRemoved, created.table, payload, now, removeFaults)
          else HandlerResult(created.table, Completed);
        WebhookResult(removed.table, if removed.outcome == Completed then WebhookProcessed else WebhookFailed)
  }

  /** A payload without a `Records` array is refused and no row changes. */
  lemma MalformedPayloadChangesNothing(kind: EventKind, t: Table, now: Time, createFaults: set<nat>, removeFaults: set<nat>)
    ensures Handler(kind, t, None, now, createFaults) == HandlerResult(t, InvalidPayload)
    ensures Webhook(t, None, now, createFaults, removeFaults) == WebhookResult(t, WebhookInvalidPayload)
  {
  }

  /** A creation pass that fails answers 500 and skips the removal pass; the
      updates for the records before the failing one stay applied. */
  lemma CreationFailureSkipsRemoval(t: Table, recs: seq<MinioRecord>, now: Time, createFaults: set<nat>, removeFaults: set<nat>)
    requires Pass(ObjectCreated, t, recs, now, createFaults).error.Some?
    ensures var i := Pass(ObjectCreated, t, recs, now, createFaults).error.value;
      && i < |recs| && Matches(ObjectCreated, recs[i]) && i in createFaults
      && Webhook(t, Some(recs), now, createFaults, removeFaults)
         == WebhookResult(Pass(ObjectCreated, t, recs[..i], now, createFaults).table, WebhookFailed)
  {
    PassStopsAtFirstError(ObjectCreated, t, recs, now, createFaults);
  }

  /** A removal pass that fails, after a creation pass that did not, answers
      500; the creation updates and the removal updates before the failing
      event stay applied. */
  lemma RemovalFailureAnswers500(t: Table, recs: seq<MinioRecord>, now: Time, createFaults: set<nat>, removeFaults: set<nat>)
    requires Pass(ObjectCreated, t, recs, now, createFaults).error.None?
    requires Pass(ObjectRemoved, Pass(ObjectCreated, t, recs, now, createFaults).table, recs, now, removeFaults).error.Some?
    ensures var c := Pass(ObjectCreated, t, recs, now, createFaults).table;
      var i := Pass(ObjectRemoved, c, recs, now, removeFaults).error.value;
      && i < |recs| && Matches(ObjectRemoved, recs[i]) && i in removeFaults
      && Webhook(t, Some(recs), now, createFaults, removeFaults)
         == WebhookResult(Pass(ObjectRemoved, c, recs[..i], now, removeFaults).table, WebhookFailed)
  {
    var c := Pass(ObjectCreated, t, recs, now, createFaults).table;
    PassStopsAtFirstError(ObjectRemoved, c, recs, now, removeFaults);
    if !HasEvents(ObjectCreated, recs) {
      SettledPassIsNoOp(ObjectCreated, t, recs, now, createFaults);
    }
  }

  /** The webhook answers 200 exactly when the store fails the update of no
      event that either pass acts on. */
  lemma WebhookAnswers200Exactly(t: Table, recs: seq<MinioRecord>, now: Time, createFaults: set<nat>, removeFaults: set<nat>)
    ensures Webhook(t, Some(recs), now, createFaults, removeFaults).response == WebhookProcessed <==>
      && (forall j :: 0 <= j < |recs| && Matches(ObjectCreated, recs[j]) ==> j !in createFaults)
      && (forall j :: 0 <= j < |recs| && Matches(ObjectRemoved, recs[j]) ==> j !in removeFaults)
  {
    PassStopsAtFirstError(ObjectCreated, t, recs, now, createFaults);
    var c := if HasEvents(ObjectCreated, recs) then Pass(ObjectCreated, t, recs, now, createFaults).table else t;
    PassStopsAtFirstError(ObjectRemoved, c, recs, now, removeFaults);
  }

  /** Once a webhook has been processed, delivering the same batch again
      changes no row, at any time and whatever the store fails. */
  lemma WebhookReplayIsNoOp(t: Table, recs: seq<MinioRecord>, now: Time, createFaults: set<nat>, removeFaults: set<nat>,
                            now': Time, createFaults': set<nat>, removeFaults': set<nat>)
    requires Webhook(t, Some(recs), now, createFaults, removeFaults).response == WebhookProcessed
    ensures var w := Webhook(t, Some(recs), now, createFaults, removeFaults).table;
      Webhook(w, Some(recs), now', createFaults', removeFaults').table == w
  {
    var hasC, hasR := HasEvents(ObjectCreated, recs), HasEvents(ObjectRemoved, recs);
    var c := if hasC then Pass(ObjectCreated, t, recs, now, createFaults).table else t;
    var w := if hasR then Pass(ObjectRemoved, c, recs, now, removeFaults).table else c;
    assert Webhook(t, Some(recs), now, createFaults, removeFaults).table == w;
    // Every row a creation event names is settled for creation in c, and stays so in w.
    if hasC {
      PassSettles(ObjectCreated, t, recs, now, createFaults);
    }
    forall j | 0 <= j < |recs| && Matches(ObjectCreated, recs[j]) ensures EventSettled(ObjectCreated, w, recs[j]) {
      var id := FileIdFromKey(recs[j].key);
      if hasR && id in c {
        PassTransitions(ObjectRemoved, c, recs, now, removeFaults, id);
      }
    }
    // Every row a removal event names is settled for removal in w.
    if hasR {
      PassSettles(ObjectRemoved, c, recs, now, removeFaults);
    }
    SettledPassIsNoOp(ObjectCreated, w, recs, now', createFaults');
    SettledPassIsNoOp(ObjectRemoved, w, recs, now', removeFaults');
  }

  // ---------------------------------------------------------------- order within a batch

  /** Reference reading of a batch: every event applied at its own position. */
  function InOrder(t: Table, recs: seq<MinioRecord>, now: Time): Table
    decreases |recs|
  {
    if recs == [] then t
    else
      var n := |recs| - 1;
      var prev := InOrder(t, recs[..n], now);
      if Matches(ObjectCreated, recs[n]) then ApplyEvent(ObjectCreated, prev, recs[n], now).table
      else if Matches(ObjectRemoved, recs[n]) then ApplyEvent(ObjectRemoved, prev, recs[n], now).table
      else prev
  }

  /** The events of one kind, in batch order. */
  function Only(kind: EventKind, recs: seq<MinioRecord>): (r: seq<MinioRecord>)
    ensures forall x :: x in r ==> x in recs && Matches(kind, x)
    ensures HasEvents(kind, recs) || r == []
    decreases |recs|
  {
    if recs == [] then []
    else
      var n := |recs| - 1;
      assert forall j :: 0 <= j < n ==> recs[..n][j] == recs[j];
      Only(kind, recs[..n]) + (if Matches(kind, recs[n]) then [recs[n]] else [])
  }

  lemma {:induction false} InOrderAppend(t: Table, a: seq<MinioRecord>, b: seq<MinioRecord>, now: Time)
    ensures InOrder(t, a + b, now) == InOrder(InOrder(t, a, now), b, now)
    decreases |b|
  {
    if b == [] {
      assert a + b == a;
    } else {
      var n := |b| - 1;
      assert (a + b)[..|a + b| - 1] == a + b[..n];
      InOrderAppend(t, a, b[..n], now);
    }
  }

  /** A pass the store never fails applies the events of its kind in order. */
  lemma {:induction false} PassAppliesItsEventsInOrder(kind: EventKind, t: Table, recs: seq<MinioRecord>, now: Time)
    ensures Pass(kind, t, recs, now, {}) == PassOutcome(InOrder(t, Only(kind, recs), now), None)
    decreases |recs|
  {
    if recs != [] {
      var n := |recs| - 1;
      PassAppliesItsEventsInOrder(kind, t, recs[..n], now);
      var prefix := Only(kind, recs[..n]);
      if Matches(kind, recs[n]) {
        KindsExclusive(recs[n]);
        assert (prefix + [recs[n]])[..|prefix|] == prefix;
      } else {
        assert Only(kind, recs) == prefix;
      }
    }
  }

  /** Whatever their positions in `Records`, all creation events are applied
      before any removal event: a webhook the store never fails acts like
      the creation events in order followed by the removal events in order. */
  lemma CreationEventsApplyFirst(t: Table, recs: seq<MinioRecord>, now: Time)
    ensures Webhook(t, Some(recs), now, {}, {})
      == WebhookResult(InOrder(t, Only(ObjectCreated, recs) + Only(ObjectRemoved, recs), now), WebhookProcessed)
  {
    PassAppliesItsEventsInOrder(ObjectCreated, t, recs, now);
    var c := InOrder(t, Only(ObjectCreated, recs), now);
    PassAppliesItsEventsInOrder(ObjectRemoved, c, recs, now);
    InOrderAppend(t, Only(ObjectCreated, recs), Only(ObjectRemoved, recs), now);
  }

  /** A creation event confirms a PENDING row from its id alone: a key with
      another owner segment, in any bucket, still makes it AVAILABLE. */
  lemma CreationIgnoresOwnerSegment(t: Table, id: FileId, keyOwner: UserId, bucket: string, size: int, eTag: string, now: Time)
    requires '/' !in id && id in t && t[id].status == Pending
    ensures var r := MinioRecord("s3:ObjectCreated:Put", bucket, StorageKey(keyOwner, id), size, eTag);
      var u := ApplyEvent(ObjectCreated, t, r, now);
      u.count == 1 && u.table[id] == t[id].(status := Available, size := Some(size), completedAt := Some(now))
  {
    FileIdOfStorageKey(keyOwner, id);
  }

  /** A removal event moves a PENDING row straight to DELETED, whether or not
      its owner asked for the deletion. */
  lemma RemovalDeletesPendingRecord(t: Table, owner: UserId, id: FileId, bucket: string, eTag: string, now: Time)
    requires '/' !in id && id in t && t[id].status == Pending
    ensures var r := MinioRecord("s3:ObjectRemoved:Delete", bucket, StorageKey(owner, id), 0, eTag);
      var u := ApplyEvent(ObjectRemoved, t, r, now);
      u.count == 1 && u.table[id].status == Deleted && u.table[id].deletedAt == Some(now)
  {
    FileIdOfStorageKey(owner, id);
  }
}
