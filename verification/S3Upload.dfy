/**
 The server side of an upload: a `UserMedia` row and what S3 holds under its key, changed by create,
 finalize, abort and cleanup.

 Every S3 call may be refused, or its connection may break before or after S3 acted on it. The class
 methods follow the code; the step functions say what each does to the row and the bucket.
 */
module S3Upload {
  import opened Prelude
  import opened Sorting
  import opened Tiling

  // ----- S3, for one key -----

  type Key = string

  type UploadId = nat

  /** The open multipart uploads of a key with the parts stored so far, and the object, if any. */
  datatype Slot = Slot(uploads: map<UploadId, map<int, Bytes>>, content: Option<Bytes>)

  const EMPTY_SLOT := Slot(map[], None)

  /** What may go wrong with a call: nothing, an error response, or a lost connection. */
  datatype Fault = Works | Refuses | Breaks(applied: bool)

  datatype ErrorCode = NoSuchUpload | InvalidPart | NotFound | Refused

  datatype Outcome = Done | ClientError(code: ErrorCode) | ConnectionLost

  /** The effect of a call that S3 answers with `answer` when nothing goes wrong. */
  function Call(slot: Slot, fault: Fault, answer: Result<Slot, ErrorCode>): (Slot, Outcome) {
    match fault
    case Refuses => (slot, ClientError(Refused))
    case Breaks(applied) => (if applied && answer.Ok? then answer.value else slot, ConnectionLost)
    case Works => if answer.Ok? then (answer.value, Done) else (slot, ClientError(answer.error))
  }

  function CreateMultipart(slot: Slot, id: UploadId): Result<Slot, ErrorCode> {
    Ok(slot.(uploads := slot.uploads[id := map[]]))
  }

  function CompleteMultipart(slot: Slot, id: UploadId, parts: seq<CompletedPart>): Result<Slot, ErrorCode> {
    if id !in slot.uploads then Err(NoSuchUpload)
    else if !Joinable(slot.uploads[id], parts) then Err(InvalidPart)
    else Ok(Slot(slot.uploads - {id}, Some(Joined(slot.uploads[id], parts))))
  }

  function HeadObject(slot: Slot): Result<Slot, ErrorCode> {
    if slot.content.None? then Err(NotFound) else Ok(slot)
  }

  function AbortMultipart(slot: Slot, id: UploadId): Result<Slot, ErrorCode> {
    if id !in slot.uploads then Err(NoSuchUpload) else Ok(slot.(uploads := slot.uploads - {id}))
  }

  function DeleteObject(slot: Slot): Result<Slot, ErrorCode> {
    Ok(slot.(content := None))
  }

  // ----- the row -----

  datatype Status = Initial | UploadCreated | UploadError | UploadComplete | UploadAborted

  type User = nat

  datatype Media = Media(owner: Option<User>, size: int, status: Status, uploadId: Option<UploadId>)

  datatype Error =
    | BucketMissing | PermissionDenied | InvalidState | InTransaction | NotExpired
    | TooLarge | TooSmall | KeyChanged | IdMissing | S3(outcome: Outcome)

  /** The row, if it is in the database, and the bucket under its key. */
  datatype World = World(row: Option<Media>, slot: Slot)

  // ----- what each operation does -----

  function CreateStep(w: World, bucket: bool, user: Option<User>, size: int, maxSize: int, id: UploadId, fault: Fault):
    (World, Result<(), Error>)
  {
    if !bucket then (w, Err(BucketMissing))
    else if size > maxSize then (w, Err(TooLarge))
    else if size < 1 then (w, Err(TooSmall))
    else
      var (slot, outcome) := Call(w.slot, fault, CreateMultipart(w.slot, id));
      if outcome == Done then (World(Some(Media(user, size, UploadCreated, Some(id))), slot), Ok(()))
      else (World(Some(Media(user, size, Initial, None)), slot), Err(S3(outcome)))
  }

  /** The guard shared by the operations on an existing upload. */
  function Guard(m: Media, bucket: bool, user: Option<User>, allowed: set<Status>): Result<(), Error> {
    if !bucket then Err(BucketMissing)
    else if user != m.owner then Err(PermissionDenied)
    else if m.status !in allowed then Err(InvalidState)
    else Ok(())
  }

  datatype FinalizeFaults = FinalizeFaults(complete: Fault, keyChanged: bool, head: Fault)

  function FinalizeStep(w: World, bucket: bool, user: Option<User>, inTransaction: bool,
                        parts: seq<CompletedPart>, faults: FinalizeFaults): (World, Result<(), Error>)
    requires w.row.Some? && (w.row.value.status == UploadCreated ==> w.row.value.uploadId.Some?)
  {
    var m := w.row.value;
    var guard := Guard(m, bucket, user, {UploadCreated});
    if guard.Err? then (w, guard)
    else if inTransaction then (w, Err(InTransaction))
    else
      var errored := Some(m.(status := UploadError));
      var answer := CompleteMultipart(w.slot, m.uploadId.value, Sort(ByNumber(), parts));
      var (slot, outcome) := Call(w.slot, faults.complete, answer);
      if outcome.ClientError? then (World(errored, slot), Err(S3(outcome)))
      else if outcome.ConnectionLost? then (World(w.row, slot), Err(S3(outcome)))
      else if faults.keyChanged then (World(errored, slot), Err(KeyChanged))
      else
        var (_, found) := Call(slot, faults.head, HeadObject(slot));
        if found.ClientError? then (World(errored, slot), Err(S3(found)))
        else if found.ConnectionLost? then (World(w.row, slot), Err(S3(found)))
        else (World(Some(m.(status := UploadComplete, size := |slot.content.value|)), slot), Ok(()))
  }

  function AbortStep(w: World, bucket: bool, user: Option<User>, fault: Fault): (World, Result<(), Error>)
    requires w.row.Some?
    requires w.row.value.status in {UploadCreated, UploadAborted, UploadError} ==> w.row.value.uploadId.Some?
  {
    var m := w.row.value;
    var guard := Guard(m, bucket, user, {UploadCreated, UploadAborted, UploadError});
    if guard.Err? then (w, guard)
    else
      var (slot, outcome) := Call(w.slot, fault, AbortMultipart(w.slot, m.uploadId.value));
      if outcome == Done then (World(Some(m.(status := UploadAborted)), slot), Ok(()))
      else (World(w.row, slot), Err(S3(outcome)))
  }

  function CleanupStep(w: World, bucket: bool, expired: bool, fault: Fault): (World, Result<(), Error>)
    requires w.row.Some?
  {
    var m := w.row.value;
    if !bucket then (w, Err(BucketMissing))
    else if !expired then (w, Err(NotExpired))
    else if m.status == UploadComplete then
      var (slot, outcome) := Call(w.slot, fault, DeleteObject(w.slot));
      if outcome == Done then (World(None, slot), Ok(())) else (World(w.row, slot), Err(S3(outcome)))
    else if m.status == UploadAborted || m.uploadId.None? then (World(None, w.slot), Ok(()))
    else
      var (slot, outcome) := Call(w.slot, fault, AbortMultipart(w.slot, m.uploadId.value));
      if outcome == Done || outcome == ClientError(NoSuchUpload) then (World(None, slot), Ok(()))
      else (World(w.row, slot), Err(S3(outcome)))
  }

  function Download(w: World, bucket: bool, user: Option<User>, fault: Fault): Result<Bytes, Error>
    requires w.row.Some?
  {
    var guard := Guard(w.row.value, bucket, user, {UploadComplete});
    if guard.Err? then Err(guard.error)
    else
      var (_, outcome) := Call(w.slot, fault, HeadObject(w.slot));
      if outcome == Done then Ok(w.slot.content.value) else Err(S3(outcome))
  }

  // ----- the code -----

  class S3Client {
    var slots: map<Key, Slot>

    function At(key: Key): Slot
      reads this
    {
      if key in slots then slots[key] else EMPTY_SLOT
    }

    /** Sends a request for one key; the other keys are not touched. */
    method Send(key: Key, fault: Fault, answer: Result<Slot, ErrorCode>) returns (outcome: Outcome)
      modifies this
      ensures (At(key), outcome) == Call(old(At(key)), fault, answer)
      ensures forall k :: k != key ==> At(k) == old(At(k))
    {
      var (slot, o) := Call(At(key), fault, answer);
      slots := slots[key := slot];
      outcome := o;
    }
  }

  class UserMedia {
    const key: Key
    const owner: Option<User>
    var size: int
    var status: Status
    var uploadId: Option<UploadId>
    var inDatabase: bool

    ghost function Row(): Option<Media>
      reads this
    {
      if inDatabase then Some(Media(owner, size, status, uploadId)) else None
    }

    ghost function View(client: S3Client): World
      reads this, client
    {
      World(Row(), client.At(key))
    }

    constructor (key: Key, owner: Option<User>, size: int)
      ensures this.key == key && this.owner == owner && this.size == size
      ensures Row() == Some(Media(owner, size, Initial, None))
    {
      this.key, this.owner, this.size := key, owner, size;
      status, uploadId, inDatabase := Initial, None, true;
    }
  }

  method CreateUpload(client: S3Client, bucket: bool, user: Option<User>, key: Key, size: int, maxSize: int,
                      id: UploadId, fault: Fault) returns (media: UserMedia?, r: Result<(), Error>)
    modifies client
    ensures media != null ==> fresh(media) && media.key == key
    ensures var w := World(None, old(client.At(key)));
            (World(if media == null then None else media.Row(), client.At(key)), r) ==
            CreateStep(w, bucket, user, size, maxSize, id, fault)
    ensures forall k :: k != key ==> client.At(k) == old(client.At(k))
  {
    media := null;
    if !bucket {
      return null, Err(BucketMissing);
    }
    if size > maxSize {
      return null, Err(TooLarge);
    }
    if size < 1 {
      return null, Err(TooSmall);
    }
    media := new UserMedia(key, user, size);
    var outcome := client.Send(key, fault, CreateMultipart(client.At(key), id));
    if outcome != Done {
      return media, Err(S3(outcome));
    }
    media.uploadId := Some(id);
    media.status := UploadCreated;
    r := Ok(());
  }

  method GetSignedUploadUrls(media: UserMedia, bucket: bool, user: Option<User>)
    returns (r: Result<seq<Part>, Error>)
    requires media.inDatabase && media.size >= 1
    ensures !bucket <==> r == Err(BucketMissing)
    ensures bucket && user != media.owner <==> r == Err(PermissionDenied)
    ensures bucket && user == media.owner && media.status != UploadCreated <==> r == Err(InvalidState)
    ensures bucket && user == media.owner && media.status == UploadCreated <==> r.Ok?
    ensures r.Ok? ==> r.value != [] && Tiles(r.value, 1, 0, media.size, 50 * 1024 * 1024)
  {
    if !bucket {
      return Err(BucketMissing);
    }
    if user != media.owner {
      return Err(PermissionDenied);
    }
    if media.status != UploadCreated {
      return Err(InvalidState);
    }
    var parts := PlanParts(media.size, UPLOAD_PART_SIZE);
    r := Ok(parts);
  }

  method FinalizeUpload(client: S3Client, media: UserMedia, bucket: bool, user: Option<User>, inTransaction: bool,
                        parts: seq<CompletedPart>, faults: FinalizeFaults) returns (r: Result<(), Error>)
    requires media.inDatabase && (media.status == UploadCreated ==> media.uploadId.Some?)
    modifies client, media
    ensures (media.View(client), r) ==
            FinalizeStep(old(media.View(client)), bucket, user, inTransaction, parts, faults)
    ensures bucket && user != media.owner ==>
              r == Err(PermissionDenied) && media.View(client) == old(media.View(client))
    ensures forall k :: k != media.key ==> client.At(k) == old(client.At(k))
  {
    if !bucket {
      return Err(BucketMissing);
    }
    if user != media.owner {
      return Err(PermissionDenied);
    }
    if media.status != UploadCreated {
      return Err(InvalidState);
    }
    if inTransaction {
      return Err(InTransaction);
    }
    var sorted := Sort(ByNumber(), parts);
    var answer := CompleteMultipart(client.At(media.key), media.uploadId.value, sorted);
    var outcome := client.Send(media.key, faults.complete, answer);
    if outcome.ConnectionLost? {
      return Err(S3(outcome));
    }
    var error: Option<Error> := None;
    if outcome.ClientError? {
      error := Some(S3(outcome));
    } else if faults.keyChanged {
      error := Some(KeyChanged);
    } else {
      var (_, found) := Call(client.At(media.key), faults.head, HeadObject(client.At(media.key)));
      if found.ConnectionLost? {
        return Err(S3(found));
      }
      if found.ClientError? {
        error := Some(S3(found));
      } else {
        media.size := |client.At(media.key).content.value|;
        media.status := UploadComplete;
      }
    }
    if error.Some? {
      media.status := UploadError;
      return Err(error.value);
    }
    r := Ok(());
  }

  method AbortUpload(client: S3Client, media: UserMedia, bucket: bool, user: Option<User>, fault: Fault)
    returns (r: Result<(), Error>)
    requires media.inDatabase
    requires media.status in {UploadCreated, UploadAborted, UploadError} ==> media.uploadId.Some?
    modifies client, media
    ensures (media.View(client), r) == AbortStep(old(media.View(client)), bucket, user, fault)
    ensures bucket && user != media.owner ==>
              r == Err(PermissionDenied) && media.View(client) == old(media.View(client))
    ensures forall k :: k != media.key ==> client.At(k) == old(client.At(k))
  {
    if !bucket {
      return Err(BucketMissing);
    }
    if user != media.owner {
      return Err(PermissionDenied);
    }
    if media.status !in {UploadCreated, UploadAborted, UploadError} {
      return Err(InvalidState);
    }
    var outcome := client.Send(media.key, fault, AbortMultipart(client.At(media.key), media.uploadId.value));
    if outcome != Done {
      return Err(S3(outcome));
    }
    media.status := UploadAborted;
    r := Ok(());
  }

  /** Deletes the row first, in a transaction that an exception rolls back. */
  method CleanupExpiredUpload(client: S3Client, media: UserMedia, bucket: bool, expired: bool, fault: Fault)
    returns (r: Result<(), Error>)
    requires media.inDatabase
    modifies client, media
    ensures (media.View(client), r) == CleanupStep(old(media.View(client)), bucket, expired, fault)
    ensures forall k :: k != media.key ==> client.At(k) == old(client.At(k))
  {
    if !bucket {
      return Err(BucketMissing);
    }
    if !expired {
      return Err(NotExpired);
    }
    media.inDatabase := false;
    if media.status != UploadAborted && media.status != UploadComplete {
      if media.uploadId.Some? {
        var outcome := client.Send(media.key, fault, AbortMultipart(client.At(media.key), media.uploadId.value));
        if outcome != Done && outcome != ClientError(NoSuchUpload) {
          media.inDatabase := true;
          return Err(S3(outcome));
        }
      }
    }
    if media.status == UploadComplete {
      var outcome := client.Send(media.key, fault, DeleteObject(client.At(media.key)));
      if outcome != Done {
        media.inDatabase := true;
        return Err(S3(outcome));
      }
    }
    r := Ok(());
  }

  // ----- runs -----

  /** What can happen to one upload after its creation was attempted, including browser part uploads. */
  datatype Op =
    | Put(id: UploadId, part: Part, body: Bytes)
    | Finalize(bucket: bool, user: Option<User>, inTransaction: bool, parts: seq<CompletedPart>, faults: FinalizeFaults)
    | Abort(bucket: bool, user: Option<User>, fault: Fault)
    | Cleanup(bucket: bool, expired: bool, fault: Fault)

  datatype Creation = Creation(bucket: bool, user: Option<User>, size: int, maxSize: int, id: UploadId, fault: Fault)

  function Created(c: Creation): World {
    CreateStep(World(None, EMPTY_SLOT), c.bucket, c.user, c.size, c.maxSize, c.id, c.fault).0
  }

  /** S3 opened the upload but its answer, and so the id, was lost. */
  ghost predicate LosesCreation(c: Creation) {
    c.bucket && 1 <= c.size <= c.maxSize && c.fault == Breaks(true)
  }

  ghost function Orphans(c: Creation): set<UploadId> {
    if LosesCreation(c) then {c.id} else {}
  }

  /** An object deletion whose answer was lost: the row is kept, the object is gone. */
  ghost predicate LosesDeletion(w: World, op: Op) {
    && op.Cleanup? && op.bucket && op.expired && op.fault == Breaks(true)
    && w.row.Some? && w.row.value.status == UploadComplete
  }

  /** Open multipart uploads are the row's own or, if the row has none, an orphan; each status says what S3 holds. */
  ghost predicate Consistent(w: World, orphans: set<UploadId>, purged: bool) {
    && orphans <= w.slot.uploads.Keys
    && (w.row.None? ==> w.slot.uploads.Keys <= orphans)
    && (w.row.Some? ==>
          var m := w.row.value;
          && IdMatchesStatus(w)
          && w.slot.uploads.Keys <= orphans + (if m.uploadId.Some? then {m.uploadId.value} else {})
          && (m.uploadId.Some? ==> orphans == {})
          && (m.status in {UploadAborted, UploadComplete} ==> m.uploadId.value !in w.slot.uploads)
          && (m.status == UploadComplete ==>
                if purged then w.slot.content.None?
                else w.slot.content.Some? && |w.slot.content.value| == m.size)
          && (purged ==> m.status == UploadComplete))
  }

  /** The upload id is recorded together with the first status after the initial one. */
  predicate IdMatchesStatus(w: World) {
    w.row.Some? ==> (w.row.value.status == Initial <==> w.row.value.uploadId.None?)
  }

  /** Calls that need an upload id the row does not have are rejected before they are sent; no run gets there. */
  function Step(w: World, op: Op): (World, Result<(), Error>) {
    if !IdMatchesStatus(w) then (w, Err(IdMissing)) else OpStep(w, op)
  }

  function OpStep(w: World, op: Op): (World, Result<(), Error>)
    requires IdMatchesStatus(w)
  {
    match op
    case Put(id, part, body) =>
      if id in w.slot.uploads then
        (w.(slot := w.slot.(uploads := w.slot.uploads[id := PutPart(w.slot.uploads[id], part, body)])), Ok(()))
      else (w, Err(S3(ClientError(NoSuchUpload))))
    case Finalize(bucket, user, inTransaction, parts, faults) =>
      if w.row.None? then (w, Err(InvalidState)) else FinalizeStep(w, bucket, user, inTransaction, parts, faults)
    case Abort(bucket, user, fault) =>
      if w.row.None? then (w, Err(InvalidState)) else AbortStep(w, bucket, user, fault)
    case Cleanup(bucket, expired, fault) =>
      if w.row.None? then (w, Err(InvalidState)) else CleanupStep(w, bucket, expired, fault)
  }

  /** A run's states, with whether an object deletion has been lost so far. */
  ghost predicate IsRun(c: Creation, ops: seq<Op>, worlds: seq<World>, purged: seq<bool>) {
    && |worlds| == |purged| == |ops| + 1
    && worlds[0] == Created(c) && !purged[0]
    && forall i {:trigger ops[i]} :: 0 <= i < |ops| ==>
         && worlds[i + 1] == Step(worlds[i], ops[i]).0
         && purged[i + 1] == (purged[i] || LosesDeletion(worlds[i], ops[i]))
  }

  lemma CreatedIsConsistent(c: Creation)
    ensures Consistent(Created(c), Orphans(c), false)
  {
  }

  /** Each operation keeps the row and the bucket consistent. */
  lemma StepIsConsistent(w: World, op: Op, orphans: set<UploadId>, purged: bool)
    requires Consistent(w, orphans, purged)
    ensures Consistent(Step(w, op).0, orphans, purged || LosesDeletion(w, op))
  {
  }

  /** Every state of every run is consistent. */
  lemma {:induction false} RunIsConsistent(c: Creation, ops: seq<Op>, worlds: seq<World>, purged: seq<bool>, i: nat)
    requires IsRun(c, ops, worlds, purged) && i <= |ops|
    ensures Consistent(worlds[i], Orphans(c), purged[i])
  {
    if i == 0 {
      CreatedIsConsistent(c);
    } else {
      RunIsConsistent(c, ops, worlds, purged, i - 1);
      StepIsConsistent(worlds[i - 1], ops[i - 1], Orphans(c), purged[i - 1]);
    }
  }

  /**
   What the status says about S3 in every state of every run: an aborted or complete upload has no open
   multipart, and a complete one has its object, of the recorded size, exactly until a deletion answer is
   lost.
   */
  lemma StatusTellsWhatS3Holds(c: Creation, ops: seq<Op>, worlds: seq<World>, purged: seq<bool>, i: nat)
    requires IsRun(c, ops, worlds, purged) && i <= |ops| && worlds[i].row.Some?
    ensures var m, slot := worlds[i].row.value, worlds[i].slot;
            && (m.status in {UploadAborted, UploadComplete} ==> slot.uploads == map[])
            && (m.status == UploadComplete ==> (slot.content.Some? <==> !purged[i]))
            && (m.status == UploadComplete && !purged[i] ==> |slot.content.value| == m.size)
  {
    RunIsConsistent(c, ops, worlds, purged, i);
    assert worlds[i].slot.uploads == map[] <==> worlds[i].slot.uploads.Keys == {};
  }

  /** Once a cleanup has removed the row, an open multipart is left exactly if the creation's answer was lost. */
  lemma LeftoverIffCreationLost(c: Creation, ops: seq<Op>, worlds: seq<World>, purged: seq<bool>, i: nat)
    requires IsRun(c, ops, worlds, purged) && i <= |ops| && worlds[i].row.None?
    ensures worlds[i].slot.uploads.Keys == Orphans(c)
    ensures worlds[i].slot.uploads != map[] <==> LosesCreation(c)
  {
    RunIsConsistent(c, ops, worlds, purged, i);
    assert worlds[i].slot.uploads == map[] <==> worlds[i].slot.uploads.Keys == {};
  }

  /** Complete is left only by a cleanup that removes the row; finalize succeeds only into it. */
  lemma CompleteIsLeftByCleanup(w: World, op: Op, orphans: set<UploadId>, purged: bool)
    requires Consistent(w, orphans, purged)
    requires w.row.Some? && w.row.value.status == UploadComplete
    ensures var (w', r) := Step(w, op);
            && (w'.row == w.row || (w'.row.None? && op.Cleanup? && r.Ok?))
            && (op.Finalize? ==> r.Err?)
  {
  }

  /**
   A cleanup raises and keeps the row, or returns with the row gone and no object of a complete row. No
   multipart is left open then, unless the row never learnt the id of the one that S3 opened for it.
   */
  lemma CleanupIsAllOrNothing(w: World, op: Op, orphans: set<UploadId>, purged: bool)
    requires Consistent(w, orphans, purged) && w.row.Some? && op.Cleanup?
    ensures var (w', r) := Step(w, op);
            && (r.Err? ==> w'.row == w.row)
            && (r.Ok? ==> w'.row.None? && w'.slot.uploads.Keys == orphans)
            && (r.Ok? && w.row.value.uploadId.Some? ==> w'.slot.uploads == map[])
            && (r.Ok? && w.row.value.status == UploadComplete ==> w'.slot.content.None?)
            && (r.Ok? && w.row.value.status != UploadComplete ==> w'.slot.content == w.slot.content)
  {
  }

  /** Once a finalize has succeeded the row is complete until it is gone. */
  lemma {:induction false} StaysFinalized(c: Creation, ops: seq<Op>, worlds: seq<World>, purged: seq<bool>,
                                          i: nat, k: nat)
    requires IsRun(c, ops, worlds, purged) && i < k <= |ops|
    requires ops[i].Finalize? && Step(worlds[i], ops[i]).1.Ok?
    ensures worlds[k].row.Some? ==> worlds[k].row.value.status == UploadComplete
  {
    RunIsConsistent(c, ops, worlds, purged, k - 1);
    assert worlds[k] == Step(worlds[k - 1], ops[k - 1]).0;
    if i + 1 < k {
      StaysFinalized(c, ops, worlds, purged, i, k - 1);
      if worlds[k - 1].row.Some? {
        CompleteIsLeftByCleanup(worlds[k - 1], ops[k - 1], Orphans(c), purged[k - 1]);
      }
    }
  }

  /** In any run at most one finalize succeeds. */
  lemma FinalizeSucceedsOnce(c: Creation, ops: seq<Op>, worlds: seq<World>, purged: seq<bool>, i: nat, k: nat)
    requires IsRun(c, ops, worlds, purged) && i < k < |ops|
    requires ops[i].Finalize? && Step(worlds[i], ops[i]).1.Ok? && ops[k].Finalize?
    ensures Step(worlds[k], ops[k]).1.Err?
  {
    StaysFinalized(c, ops, worlds, purged, i, k);
  }

  /**
   The upload as a whole: once every planned slice has been stored, in any order and with any repeats,
   finalizing with the completions in any order succeeds and a download returns the file.
   */
  lemma {:induction false} FinalizedFileIsDownloaded(w: World, user: Option<User>, id: UploadId, file: Bytes,
                                                     parts: seq<Part>, puts: seq<nat>, reported: seq<CompletedPart>)
    requires w.row == Some(Media(user, |file|, UploadCreated, Some(id))) && id in w.slot.uploads
    requires |file| >= 1 && Tiles(parts, 1, 0, |file|, UPLOAD_PART_SIZE)
    requires Planned(puts, |parts|) && forall k: nat :: k < |parts| ==> k in puts
    requires w.slot.uploads[id] == PutAll(map[], file, parts, puts)
    requires multiset(reported) == multiset(Completions(file, parts))
    ensures var (w', r) := FinalizeStep(w, true, user, false, reported, FinalizeFaults(Works, false, Works));
            && r == Ok(())
            && w'.row == Some(Media(user, |file|, UploadComplete, Some(id)))
            && Download(w', true, user, Works) == Ok(file)
  {
    UploadReproducesFile(file, parts, UPLOAD_PART_SIZE, puts, reported);
  }

  // ----- who may do what, and when it succeeds -----

  /** Nobody but the owner finalizes, aborts or downloads an upload. */
  lemma OthersAreRefused(w: World, user: Option<User>, inTransaction: bool, parts: seq<CompletedPart>,
                         faults: FinalizeFaults, fault: Fault)
    requires IdMatchesStatus(w) && w.row.Some? && user != w.row.value.owner
    ensures Step(w, Finalize(true, user, inTransaction, parts, faults)) == (w, Err(PermissionDenied))
    ensures Step(w, Abort(true, user, fault)) == (w, Err(PermissionDenied))
    ensures Download(w, true, user, fault) == Err(PermissionDenied)
  {
  }

  /** Before anything else a missing bucket is noticed, and after the owner the status is checked. */
  lemma RefusalsInOrder(w: World, user: Option<User>, inTransaction: bool, parts: seq<CompletedPart>,
                        faults: FinalizeFaults, expired: bool, fault: Fault)
    requires IdMatchesStatus(w) && w.row.Some?
    ensures Step(w, Finalize(false, user, inTransaction, parts, faults)) == (w, Err(BucketMissing))
    ensures Step(w, Abort(false, user, fault)) == (w, Err(BucketMissing))
    ensures Step(w, Cleanup(false, expired, fault)) == (w, Err(BucketMissing))
    ensures Step(w, Cleanup(true, false, fault)) == (w, Err(NotExpired))
    ensures Download(w, false, user, fault) == Err(BucketMissing)
    ensures var m := w.row.value;
            user == m.owner ==>
              && (m.status != UploadCreated ==>
                    Step(w, Finalize(true, user, inTransaction, parts, faults)) == (w, Err(InvalidState)))
              && (m.status == UploadCreated && inTransaction ==>
                    Step(w, Finalize(true, user, inTransaction, parts, faults)) == (w, Err(InTransaction)))
              && (m.status == UploadComplete || m.status == Initial ==>
                    Step(w, Abort(true, user, fault)) == (w, Err(InvalidState)))
              && (m.status != UploadComplete ==> Download(w, true, user, fault) == Err(InvalidState))
  {
  }

  /** In every run the owner stays the creator, and a row changes only by the owner's requests or a cleanup. */
  lemma {:induction false} OnlyOwnerChangesRow(c: Creation, ops: seq<Op>, worlds: seq<World>, purged: seq<bool>, i: nat)
    requires IsRun(c, ops, worlds, purged) && i <= |ops|
    ensures worlds[i].row.Some? ==> worlds[i].row.value.owner == c.user
    ensures i < |ops| && worlds[i + 1].row != worlds[i].row ==>
              ops[i].Cleanup? || ((ops[i].Finalize? || ops[i].Abort?) && ops[i].user == c.user)
  {
    if i > 0 {
      OnlyOwnerChangesRow(c, ops, worlds, purged, i - 1);
      assert worlds[i] == Step(worlds[i - 1], ops[i - 1]).0;
    }
    if i < |ops| {
      assert worlds[i + 1] == Step(worlds[i], ops[i]).0;
    }
  }

  /** Creation succeeds exactly with a bucket, an admissible size and S3's answer. */
  lemma CreateSucceedsIff(w: World, bucket: bool, user: Option<User>, size: int, maxSize: int, id: UploadId,
                          fault: Fault)
    requires w.row.None?
    ensures var (w', r) := CreateStep(w, bucket, user, size, maxSize, id, fault);
            && (r.Ok? <==> bucket && 1 <= size <= maxSize && fault == Works)
            && (w'.row.Some? <==> bucket && 1 <= size <= maxSize)
            && (r.Ok? ==> w'.row == Some(Media(user, size, UploadCreated, Some(id))) && id in w'.slot.uploads)
            && (r.Err? && w'.row.Some? ==> w'.row == Some(Media(user, size, Initial, None)))
            && (!bucket ==> r == Err(BucketMissing))
            && (bucket && size > maxSize ==> r == Err(TooLarge))
            && (bucket && size <= maxSize && size < 1 ==> r == Err(TooSmall))
  {
  }

  /** What S3 would join: the parts are open under the row's id and the sorted report matches them. */
  ghost predicate Acceptable(w: World, parts: seq<CompletedPart>)
    requires w.row.Some? && w.row.value.uploadId.Some?
  {
    var id := w.row.value.uploadId.value;
    id in w.slot.uploads && Joinable(w.slot.uploads[id], Sort(ByNumber(), parts))
  }

  /** Finalizing succeeds exactly for the owner of a created upload whose report S3 accepts, without a fault. */
  lemma FinalizeSucceedsIff(w: World, bucket: bool, user: Option<User>, inTransaction: bool,
                            parts: seq<CompletedPart>, faults: FinalizeFaults)
    requires IdMatchesStatus(w) && w.row.Some?
    ensures var m := w.row.value; var (w', r) := Step(w, Finalize(bucket, user, inTransaction, parts, faults));
            && (r.Ok? <==>
                  && bucket && user == m.owner && m.status == UploadCreated && !inTransaction
                  && faults == FinalizeFaults(Works, false, Works) && Acceptable(w, parts))
            && (r.Ok? ==>
                  var id := m.uploadId.value;
                  var content := Joined(w.slot.uploads[id], Sort(ByNumber(), parts));
                  && w' == World(Some(Media(m.owner, |content|, UploadComplete, m.uploadId)),
                                 Slot(w.slot.uploads - {id}, Some(content))))
  {
  }

  /**
   A failed finalize marks the row exactly if S3 refused the parts or the object, or stored the object
   under another key; a lost connection leaves the row as it was, so that it can be tried again.
   */
  lemma FinalizeMarksError(w: World, user: Option<User>, parts: seq<CompletedPart>, faults: FinalizeFaults)
    requires IdMatchesStatus(w) && w.row.Some? && w.row.value.status == UploadCreated && user == w.row.value.owner
    ensures var (w', r) := Step(w, Finalize(true, user, false, parts, faults));
            && (w'.row == Some(w.row.value.(status := UploadError)) <==>
                  || faults.complete.Refuses?
                  || (faults.complete == Works && !Acceptable(w, parts))
                  || (faults.complete == Works && Acceptable(w, parts) && (faults.keyChanged || faults.head.Refuses?)))
            && (r.Err? ==> w'.row == w.row || w'.row == Some(w.row.value.(status := UploadError)))
  {
  }

  /** Aborting succeeds exactly for the owner of an upload that is created, aborted or in error and open in S3. */
  lemma AbortSucceedsIff(w: World, bucket: bool, user: Option<User>, fault: Fault)
    requires IdMatchesStatus(w) && w.row.Some?
    ensures var m := w.row.value; var (w', r) := Step(w, Abort(bucket, user, fault));
            && (r.Ok? <==>
                  && bucket && user == m.owner && fault == Works
                  && (m.status == UploadCreated || m.status == UploadAborted || m.status == UploadError)
                  && m.uploadId.value in w.slot.uploads)
            && (r.Ok? ==>
                  && w'.row == Some(m.(status := UploadAborted))
                  && w'.slot == w.slot.(uploads := w.slot.uploads - {m.uploadId.value}))
            && (r.Err? ==> w'.row == w.row)
  {
  }

  /** Cleaning up succeeds exactly once expired, and without a fault if S3 has to be asked. */
  lemma CleanupSucceedsIff(w: World, bucket: bool, expired: bool, fault: Fault)
    requires IdMatchesStatus(w) && w.row.Some?
    ensures var m := w.row.value; var (w', r) := Step(w, Cleanup(bucket, expired, fault));
            && (r.Ok? <==>
                  bucket && expired && (fault == Works || m.status == UploadAborted || m.status == Initial))
            && (r.Ok? <==> w'.row.None?)
  {
  }

  /** A download is exactly the stored object of the owner's complete upload. */
  lemma DownloadSucceedsIff(w: World, bucket: bool, user: Option<User>, fault: Fault)
    requires w.row.Some?
    ensures var r := Download(w, bucket, user, fault);
            && (r.Ok? <==>
                  && bucket && user == w.row.value.owner && w.row.value.status == UploadComplete
                  && w.slot.content.Some? && fault == Works)
            && (r.Ok? ==> Some(r.value) == w.slot.content)
  {
  }
}
