/**
 Both ends of an upload together: the browser's tasks, the requests they send, and the row and the bucket
 that these requests change. Requests may be lost, delayed, repeated or answered late; anyone may abort the
 upload or clean it up meanwhile.
 */
module EndToEnd {
  import opened Prelude
  import opened Tiling
  import Sorting
  import F = FileUpload
  import S = S3Upload

  /** The file, the parts that the server plans for it, and what the server creates the upload with. */
  datatype Setup = Setup(file: Bytes, plan: seq<Part>, user: Option<S.User>, id: S.UploadId, maxSize: int)

  ghost predicate Planned(p: Setup) {
    Tiles(p.plan, 1, 0, |p.file|, UPLOAD_PART_SIZE)
  }

  /**
   `asked`: the initiating request has reached the server; `granted`: it was granted; `accepted`: the parts
   of which S3 has accepted some request; `finalized`: some finish request was granted; `purged`: the
   answer to the deletion of the object was lost.
   */
  datatype State = State(
    browser: F.State, world: S.World, asked: bool, granted: bool, accepted: set<nat>, finalized: bool, purged: bool)

  const INITIAL := State(F.INITIAL, S.World(None, S.EMPTY_SLOT), false, false, {}, false, false)

  datatype Action =
    | Browser(a: F.Action)
    | Create(bucket: bool, fault: S.Fault)
    | Store(part: nat)
    | Finalize(request: nat, bucket: bool, inTransaction: bool, faults: S.FinalizeFaults)
    | Abort(bucket: bool, user: Option<S.User>, fault: S.Fault)
    | Cleanup(bucket: bool, expired: bool, fault: S.Fault)

  ghost predicate SentIn(log: seq<F.Event>, part: nat) {
    exists i :: 0 <= i < |log| && log[i].PutStarted? && log[i].part == part
  }

  /** A request arrives only after it was sent, and a good answer only after it was granted. */
  ghost predicate Allowed(p: Setup, s: State, a: Action) {
    match a
    case Browser(StartUpload(size)) => size == |p.file|
    case Browser(InitSettles(ok, count)) => ok ==> s.granted && count == |p.plan|
    case Browser(Part(part, PutLoads(ok))) => ok ==> part in s.accepted
    case Browser(FinishSettles(ok)) => ok ==> s.finalized
    case Browser(_) => true
    case Create(_, _) => s.browser.main == F.Initiate && !s.asked
    case Store(part) => part < |p.plan| && SentIn(s.browser.log, part)
    case Finalize(i, _, _, _) => i < |s.browser.log| && s.browser.log[i].FinishSent?
    case _ => true
  }

  /** What the browser reports for these parts: the tag that S3 answered with, and the number. */
  function Reported(p: Setup, parts: seq<nat>): seq<CompletedPart> {
    seq(|parts|, i requires 0 <= i < |parts| =>
      if parts[i] < |p.plan| then CompletedPart(SliceOf(p.file, p.plan[parts[i]]), p.plan[parts[i]].number)
      else CompletedPart([], 0))
  }

  /** The server's operation that an action is. */
  function AsOp(p: Setup, s: State, a: Action): S.Op
    requires a.Store? ==> a.part < |p.plan|
    requires a.Finalize? ==> a.request < |s.browser.log| && s.browser.log[a.request].FinishSent?
    requires !a.Browser? && !a.Create?
  {
    match a
    case Store(part) => S.Put(p.id, p.plan[part], SliceOf(p.file, p.plan[part]))
    case Finalize(i, bucket, inTransaction, faults) =>
      S.Finalize(bucket, p.user, inTransaction, Reported(p, s.browser.log[i].parts), faults)
    case Abort(bucket, user, fault) => S.Abort(bucket, user, fault)
    case Cleanup(bucket, expired, fault) => S.Cleanup(bucket, expired, fault)
  }

  ghost function Next(p: Setup, s: State, a: Action): State {
    if !Allowed(p, s, a) then s
    else if a.Browser? then s.(browser := F.Next(s.browser, a.a))
    else if a.Create? then
      var (w, r) := S.CreateStep(s.world, a.bucket, p.user, |p.file|, p.maxSize, p.id, a.fault);
      s.(world := w, asked := true, granted := r.Ok?)
    else
      var op := AsOp(p, s, a);
      var (w, r) := S.Step(s.world, op);
      s.(world := w,
         accepted := if a.Store? && r.Ok? then s.accepted + {a.part} else s.accepted,
         finalized := s.finalized || (a.Finalize? && r.Ok?),
         purged := s.purged || S.LosesDeletion(s.world, op))
  }

  ghost function Run(p: Setup, actions: seq<Action>): State
    decreases |actions|
  {
    if actions == [] then INITIAL else Next(p, Run(p, actions[..|actions| - 1]), actions[|actions| - 1])
  }

  // ----- what every step keeps -----

  /** A good answer that has not been turned into a completion yet. */
  predicate HoldsAnswer(task: F.Task) {
    (task.Settled? || task.Answered?) && task.ok
  }

  /** The browser believes only what happened. */
  ghost predicate BrowserIsRight(p: Setup, s: State) {
    && F.Invariant(s.browser) && OutcomeIsRight(p, s)
    && (forall i :: 0 <= i < |s.browser.tasks| && HoldsAnswer(s.browser.tasks[i]) ==> i in s.accepted)
    && (forall part: nat :: F.CompletedIn(s.browser.log, part) ==> part in s.accepted)
  }

  /** It has the server's plan, and takes the upload for complete only after the server has. */
  ghost predicate OutcomeIsRight(p: Setup, s: State) {
    && (s.browser.planned.Some? ==> s.granted && s.browser.planned.value == |p.plan|)
    && (s.browser.main.InitReturned? ==> s.granted && s.browser.main.count == |p.plan|)
    && (s.browser.main == F.FinishReturned || s.browser.main == F.Returned(true) || s.browser.status == F.Complete ==>
          s.finalized)
  }

  /** The row is this upload's, an open multipart holds what S3 accepted, and a complete row has the file. */
  ghost predicate ServerIsRight(p: Setup, s: State) {
    && (!s.asked ==> s.world == INITIAL.world && s.accepted == {} && !s.granted && !s.finalized && !s.purged)
    && (s.granted ==> |p.file| >= 1)
    && S.IdMatchesStatus(s.world)
    && (s.world.row.Some? ==> s.world.row.value.owner == p.user)
    && (s.world.row.Some? && s.world.row.value.uploadId.Some? ==> s.world.row.value.uploadId.value == p.id)
    && (p.id in s.world.slot.uploads ==> HoldsSlices(s.world.slot.uploads[p.id], p.file, p.plan, s.accepted))
    && (s.world.row.Some? && s.world.row.value.status == S.UploadComplete && !s.purged ==>
          s.world.slot.content == Some(p.file))
    && (s.finalized ==> s.world.row.None? || s.world.row.value.status == S.UploadComplete)
  }

  ghost predicate Invariant(p: Setup, s: State) {
    BrowserIsRight(p, s) && ServerIsRight(p, s)
  }

  // ----- steps of the browser -----

  lemma CompletionWasAnswered(s: F.State, a: F.Action, part: nat)
    requires F.CompletedIn(F.Next(s, a).log, part)
    ensures F.CompletedIn(s.log, part) || (part < |s.tasks| && HoldsAnswer(s.tasks[part]))
  {
    var t := F.Next(s, a);
    var i :| 0 <= i < |t.log| && t.log[i] == F.PartCompleted(part);
    if i < |s.log| {
      F.LogGrows(s, a);
      assert s.log[i] == t.log[i];
    }
  }

  lemma AnswerIsGood(s: F.State, a: F.Action, i: nat)
    requires i < |F.Next(s, a).tasks| && HoldsAnswer(F.Next(s, a).tasks[i])
    ensures (i < |s.tasks| && HoldsAnswer(s.tasks[i])) || a == F.Part(i, F.PutLoads(true))
  {
  }

  lemma BrowserOutcome(p: Setup, s: State, a: F.Action)
    requires OutcomeIsRight(p, s) && Allowed(p, s, Browser(a))
    ensures OutcomeIsRight(p, Next(p, s, Browser(a)))
  {
  }

  lemma BrowserStep(p: Setup, s: State, a: F.Action)
    requires Invariant(p, s) && Allowed(p, s, Browser(a))
    ensures Invariant(p, Next(p, s, Browser(a)))
  {
    var t := F.Next(s.browser, a);
    F.NextKeepsInvariant(s.browser, a);
    BrowserOutcome(p, s, a);
    forall i | 0 <= i < |t.tasks| && HoldsAnswer(t.tasks[i])
      ensures i in s.accepted
    {
      AnswerIsGood(s.browser, a, i);
    }
    forall part: nat | F.CompletedIn(t.log, part)
      ensures part in s.accepted
    {
      CompletionWasAnswered(s.browser, a, part);
    }
  }

  // ----- steps of the server -----

  lemma StoreStep(p: Setup, s: State, part: nat)
    requires Planned(p) && Invariant(p, s) && Allowed(p, s, Store(part))
    ensures Invariant(p, Next(p, s, Store(part)))
  {
    if p.id in s.world.slot.uploads {
      PutOne(s.world.slot.uploads[p.id], p.file, p.plan, UPLOAD_PART_SIZE, s.accepted, part);
    }
  }

  /** Every finish request reports the whole plan in order. */
  lemma RequestIsComplete(p: Setup, s: State, i: nat)
    requires Invariant(p, s) && i < |s.browser.log| && s.browser.log[i].FinishSent?
    ensures Reported(p, s.browser.log[i].parts) == Completions(p.file, p.plan)
    ensures s.granted && forall k: nat :: k < |p.plan| ==> k in s.accepted
  {
    var log := s.browser.log;
    assert F.Justified(log[..i], log[i], s.browser.planned);
    forall k: nat | k < |p.plan|
      ensures k in s.accepted
    {
      assert F.CompletedIn(log[..i], k);
      var j :| 0 <= j < i && log[..i][j] == F.PartCompleted(k);
      assert log[j] == F.PartCompleted(k);
    }
  }

  lemma FinalizeKeepsServer(p: Setup, s: State, a: Action)
    requires Planned(p) && Invariant(p, s) && Allowed(p, s, a) && a.Finalize?
    ensures ServerIsRight(p, Next(p, s, a))
  {
    RequestIsComplete(p, s, a.request);
    if p.id in s.world.slot.uploads {
      var reported := Reported(p, s.browser.log[a.request].parts);
      JoinableIff(s.world.slot.uploads[p.id], p.file, p.plan, UPLOAD_PART_SIZE, reported);
    }
    FinalizeIsRight(s.world, a, p, Reported(p, s.browser.log[a.request].parts));
  }

  /** Finalizing leaves alone what is not its own, and makes complete only what S3 has joined. */
  lemma {:induction false} FinalizeIsRight(w: S.World, a: Action, p: Setup, reported: seq<CompletedPart>)
    requires a.Finalize? && S.IdMatchesStatus(w)
    requires w.row.Some? && w.row.value.uploadId.Some? ==> w.row.value.uploadId.value == p.id
    ensures var (w', r) := S.Step(w, S.Finalize(a.bucket, p.user, a.inTransaction, reported, a.faults));
            var sorted := Sorting.Sort(ByNumber(), reported);
            && S.IdMatchesStatus(w') && (w.row.Some? <==> w'.row.Some?)
            && (w.row.Some? ==>
                  && w'.row.value.owner == w.row.value.owner && w'.row.value.uploadId == w.row.value.uploadId
                  && (w.row.value.status == S.UploadComplete ==> w' == w && r.Err?)
                  && (w'.row.value.status == S.UploadComplete && w.row.value.status != S.UploadComplete ==>
                        && p.id in w.slot.uploads && Joinable(w.slot.uploads[p.id], sorted)
                        && w'.slot.content == Some(Joined(w.slot.uploads[p.id], sorted)))
                  && (r.Ok? ==> w'.row.value.status == S.UploadComplete))
            && (r.Ok? ==> w.row.Some?)
            && (p.id in w'.slot.uploads ==> p.id in w.slot.uploads && w'.slot.uploads[p.id] == w.slot.uploads[p.id])
  {
  }

  lemma CreateKeepsServer(p: Setup, s: State, a: Action)
    requires ServerIsRight(p, s) && Allowed(p, s, a) && a.Create?
    ensures ServerIsRight(p, Next(p, s, a))
  {
  }

  lemma AbortKeepsServer(p: Setup, s: State, a: Action)
    requires ServerIsRight(p, s) && a.Abort?
    ensures ServerIsRight(p, Next(p, s, a))
  {
  }

  lemma CleanupKeepsServer(p: Setup, s: State, a: Action)
    requires ServerIsRight(p, s) && a.Cleanup?
    ensures ServerIsRight(p, Next(p, s, a))
  {
  }

  lemma StepKeepsInvariant(p: Setup, s: State, a: Action)
    requires Planned(p) && Invariant(p, s)
    ensures Invariant(p, Next(p, s, a))
  {
    if Allowed(p, s, a) {
      match a
      case Browser(b) => BrowserStep(p, s, b);
      case Store(part) => StoreStep(p, s, part);
      case Finalize(_, _, _, _) => FinalizeKeepsServer(p, s, a);
      case Create(_, _) =>
        CreateKeepsServer(p, s, a);
      case Abort(_, _, _) => AbortKeepsServer(p, s, a);
      case Cleanup(_, _, _) => CleanupKeepsServer(p, s, a);
    }
  }

  lemma {:induction false} RunKeepsInvariant(p: Setup, actions: seq<Action>)
    requires Planned(p)
    ensures Invariant(p, Run(p, actions))
    decreases |actions|
  {
    if actions == [] {
      F.RunKeepsInvariant([]);
    } else {
      RunKeepsInvariant(p, actions[..|actions| - 1]);
      StepKeepsInvariant(p, Run(p, actions[..|actions| - 1]), actions[|actions| - 1]);
    }
  }

  // ----- the results -----

  /**
   Whatever happens on the way: once an upload is complete, or `upload()` has returned its id, a download
   returns the file, until the row is cleaned up.
   */
  lemma {:induction false} CompletedUploadIsTheFile(p: Setup, actions: seq<Action>)
    requires Planned(p)
    requires var b := Run(p, actions).browser; b.status == F.Complete || b.main == F.Returned(true)
    ensures var s := Run(p, actions);
            s.world.row.Some? && !s.purged ==>
              && s.world.row.value.status == S.UploadComplete
              && S.Download(s.world, true, p.user, S.Works) == Ok(p.file)
  {
    RunKeepsInvariant(p, actions);
  }

  /**
   A finish request that meets no fault succeeds exactly if the row still counts as created and S3 still
   has the multipart open; a download then returns the file.
   */
  lemma {:induction false} FinishSucceedsIff(p: Setup, actions: seq<Action>, request: nat)
    requires Planned(p)
    requires var log := Run(p, actions).browser.log; request < |log| && log[request].FinishSent?
    ensures var s := Run(p, actions);
            var a := Finalize(request, true, false, S.FinalizeFaults(S.Works, false, S.Works));
            var (w, r) := S.Step(s.world, AsOp(p, s, a));
            && (r.Ok? <==>
                  && s.world.row.Some? && s.world.row.value.status == S.UploadCreated
                  && p.id in s.world.slot.uploads)
            && (r.Ok? ==> S.Download(w, true, p.user, S.Works) == Ok(p.file))
  {
    RunKeepsInvariant(p, actions);
    var s := Run(p, actions);
    RequestIsComplete(p, s, request);
    if p.id in s.world.slot.uploads {
      var reported := Reported(p, s.browser.log[request].parts);
      JoinableIff(s.world.slot.uploads[p.id], p.file, p.plan, UPLOAD_PART_SIZE, reported);
    }
  }

  // ----- every file can be uploaded -----

  lemma Then(p: Setup, actions: seq<Action>, a: Action)
    ensures Run(p, actions + [a]) == Next(p, Run(p, actions), a)
  {
    assert (actions + [a])[..|actions|] == actions;
  }

  /** The parts before `k` are completed, this one is here, the others are queued, and the server waits. */
  ghost predicate At(p: Setup, s: State, k: nat, task: F.Task) {
    && ServerWaits(p, s)
    && s.browser.status == F.Uploading && s.browser.main == F.AwaitingParts
    && k < |p.plan| == |s.browser.tasks| && s.browser.tasks[k] == task
    && (forall i :: 0 <= i < k ==> s.browser.tasks[i] == F.Completed)
    && (forall i :: k < i < |p.plan| ==> s.browser.tasks[i] == F.Queued)
    && s.browser.ongoing == (if task.Queued? || task.Completed? then 0 else 1)
    && (task.Putting? ==> SentIn(s.browser.log, k))
  }

  ghost predicate ServerWaits(p: Setup, s: State) {
    && s.granted && !s.purged && p.id in s.world.slot.uploads
    && s.world.row == Some(S.Media(p.user, |p.file|, S.UploadCreated, Some(p.id)))
  }

  predicate GoesWell(task: F.Task, op: F.TaskOp) {
    match task
    case Queued => op.TryStart?
    case Hashing(_) => op == F.HashSettles(true)
    case Hashed(_) => op.StartPut?
    case Putting(_) => op == F.PutLoads(true)
    case Settled(_, ok) => ok && op.Guard?
    case Answered(_, ok) => ok && op.Consume?
    case AttemptDone(_) => op.GuardAttempt?
    case RetryDone => op.GuardRetry?
    case Unwinding(ok) => ok && op.Unwind?
    case _ => false
  }

  /** One step of a part that goes well. */
  lemma Moves(p: Setup, s: State, k: nat, task: F.Task, op: F.TaskOp)
    requires At(p, s, k, task) && GoesWell(task, op)
    requires op.PutLoads? ==> k in s.accepted
    ensures At(p, Next(p, s, Browser(F.Part(k, op))), k, F.TaskStep(task, op, false, true))
  {
    var log := s.browser.log;
    if task.Hashed? && op.StartPut? {
      var e := F.PutStarted(k, task.attempt);
      assert (log + [e])[|log|] == e;
    }
  }

  lemma PartIsStored(p: Setup, s: State, k: nat, task: F.Task)
    requires At(p, s, k, task) && task.Putting?
    ensures var t := Next(p, s, Store(k)); At(p, t, k, task) && k in t.accepted
  {
  }

  /** A queued part whose requests all go well. */
  lemma PartIsUploaded(p: Setup, actions: seq<Action>, k: nat) returns (more: seq<Action>)
    requires At(p, Run(p, actions), k, F.Queued)
    ensures At(p, Run(p, more), k, F.Completed)
  {
    more := PartIsSent(p, actions, k);
    more := PartIsAnswered(p, more, k);
    more := DoOp(p, more, k, F.AttemptDone(1), F.GuardAttempt);
    more := DoOp(p, more, k, F.RetryDone, F.GuardRetry);
    more := DoOp(p, more, k, F.Unwinding(true), F.Unwind);
  }

  lemma PartIsAnswered(p: Setup, actions: seq<Action>, k: nat) returns (more: seq<Action>)
    requires At(p, Run(p, actions), k, F.Putting(1)) && k in Run(p, actions).accepted
    ensures At(p, Run(p, more), k, F.AttemptDone(1))
  {
    more := DoOp(p, actions, k, F.Putting(1), F.PutLoads(true));
    more := DoOp(p, more, k, F.Settled(1, true), F.Guard);
    more := DoOp(p, more, k, F.Answered(1, true), F.Consume);
  }

  lemma PartIsSent(p: Setup, actions: seq<Action>, k: nat) returns (more: seq<Action>)
    requires At(p, Run(p, actions), k, F.Queued)
    ensures At(p, Run(p, more), k, F.Putting(1)) && k in Run(p, more).accepted
  {
    more := DoOp(p, actions, k, F.Queued, F.TryStart);
    more := DoOp(p, more, k, F.Hashing(1), F.HashSettles(true));
    more := DoOp(p, more, k, F.Hashed(1), F.StartPut);
    PartIsStored(p, Run(p, more), k, F.Putting(1));
    Then(p, more, Store(k));
    more := more + [Store(k)];
  }

  lemma DoOp(p: Setup, actions: seq<Action>, k: nat, task: F.Task, op: F.TaskOp) returns (more: seq<Action>)
    requires At(p, Run(p, actions), k, task) && GoesWell(task, op)
    requires op.PutLoads? ==> k in Run(p, actions).accepted
    ensures At(p, Run(p, more), k, F.TaskStep(task, op, false, true))
  {
    Moves(p, Run(p, actions), k, task, op);
    Then(p, actions, Browser(F.Part(k, op)));
    more := actions + [Browser(F.Part(k, op))];
  }

  lemma {:induction false} PartsAreUploaded(p: Setup, actions: seq<Action>, k: nat) returns (more: seq<Action>)
    requires At(p, Run(p, actions), k, F.Queued)
    ensures At(p, Run(p, more), |p.plan| - 1, F.Completed)
    decreases |p.plan| - k
  {
    more := PartIsUploaded(p, actions, k);
    if k + 1 < |p.plan| {
      assert At(p, Run(p, more), k + 1, F.Queued);
      more := PartsAreUploaded(p, more, k + 1);
    }
  }

  lemma UploadBegins(p: Setup) returns (actions: seq<Action>)
    requires Planned(p) && 1 <= |p.file| <= p.maxSize
    ensures At(p, Run(p, actions), 0, F.Queued)
  {
    actions := [];
    Then(p, actions, Browser(F.StartUpload(|p.file|)));
    actions := actions + [Browser(F.StartUpload(|p.file|))];
    Then(p, actions, Create(true, S.Works));
    actions := actions + [Create(true, S.Works)];
    assert ServerWaits(p, Run(p, actions)) && Run(p, actions).browser.main == F.Initiate;
    assert Run(p, actions).browser.status == F.Initiating && Run(p, actions).browser.ongoing == 0;
    actions := PlanArrives(p, actions);
  }

  lemma PlanArrives(p: Setup, before: seq<Action>) returns (actions: seq<Action>)
    requires Planned(p) && |p.file| >= 1 && ServerWaits(p, Run(p, before))
    requires var b := Run(p, before).browser;
             b.main == F.Initiate && b.status == F.Initiating && b.ongoing == 0
    ensures At(p, Run(p, actions), 0, F.Queued)
  {
    var answer := Browser(F.InitSettles(true, |p.plan|));
    Then(p, before, answer);
    Then(p, before + [answer], Browser(F.InitContinues));
    Then(p, before + [answer] + [Browser(F.InitContinues)], Browser(F.InitGuarded));
    actions := before + [answer] + [Browser(F.InitContinues)] + [Browser(F.InitGuarded)];
    assert Run(p, actions).browser.main == F.Spawning && Run(p, actions).browser.planned == Some(|p.plan|);
    Then(p, actions, Browser(F.Spawn));
    actions := actions + [Browser(F.Spawn)];
  }

  /**
   For every file of an admissible size there is a run in which the upload becomes complete and the file
   can be downloaded: the guarantees above are not empty.
   */
  lemma {:induction false} EveryFileCanBeUploaded(p: Setup)
    requires Planned(p) && 1 <= |p.file| <= p.maxSize
    ensures exists actions :: var s := Run(p, actions);
              && s.browser.status == F.Complete && s.world.row.Some?
              && S.Download(s.world, true, p.user, S.Works) == Ok(p.file)
  {
    var actions := UploadBegins(p);
    actions := PartsAreUploaded(p, actions, 0);
    actions := UploadEnds(p, actions);
    CompletedUploadIsTheFile(p, actions);
  }

  lemma UploadEnds(p: Setup, before: seq<Action>) returns (actions: seq<Action>)
    requires Planned(p) && |p.plan| > 0 && At(p, Run(p, before), |p.plan| - 1, F.Completed)
    ensures var s := Run(p, actions); s.browser.status == F.Complete && s.world.row.Some? && !s.purged
  {
    var s := Run(p, before);
    var request := |s.browser.log|;
    var finish := Finalize(request, true, false, S.FinalizeFaults(S.Works, false, S.Works));
    Then(p, before, Browser(F.Join));
    actions := before + [Browser(F.Join)];
    Joins(p, s);
    FinishSucceedsIff(p, actions, request);
    Then(p, actions, finish);
    actions := UploadConcludes(p, actions + [finish]);
  }

  lemma Joins(p: Setup, s: State)
    requires |p.plan| > 0 && At(p, s, |p.plan| - 1, F.Completed)
    ensures var t := Next(p, s, Browser(F.Join));
            && ServerWaits(p, t) && t.browser.main == F.Finishing(1) && t.browser.status == F.Uploading
            && |t.browser.log| > |s.browser.log| && t.browser.log[|s.browser.log|].FinishSent?
  {
    assert F.JoinStep(s.browser) == F.SendFinish(s.browser, 1);
  }

  lemma UploadConcludes(p: Setup, before: seq<Action>) returns (actions: seq<Action>)
    requires var s := Run(p, before);
             && s.browser.main == F.Finishing(1) && s.browser.status == F.Uploading
             && s.finalized && s.world.row.Some? && !s.purged
    ensures var s := Run(p, actions); s.browser.status == F.Complete && s.world.row.Some? && !s.purged
  {
    Then(p, before, Browser(F.FinishSettles(true)));
    actions := before + [Browser(F.FinishSettles(true))];
    assert Run(p, actions).browser.main == F.FinishReturned;
    Then(p, actions, Browser(F.Conclude));
    actions := actions + [Browser(F.Conclude)];
  }
}
