/**
 The upload object itself: its fields are updated in place by the stretches of code between awaits. Driven
 through any interleaving of these it keeps the invariant of the model, and its throttler counts exactly
 the part tasks that are inside it.
 */
module FileUploadObject {
  import opened Prelude
  import opened FileUpload
  import T = Throttle

  class Upload {
    var uploadStatus: Status
    var uploadInfo: Option<nat>
    var main: Main
    var tasks: seq<Task>
    const throttler: T.PromiseThrottler
    var log: seq<Event>

    ghost function View(): State
      reads this, throttler
    {
      State(uploadStatus, uploadInfo, main, tasks, throttler.ongoing, log)
    }

    /** The throttler's callers are the part tasks. */
    ghost predicate ThrottlerIsShared()
      reads this, throttler
    {
      throttler.parallelism == MAX_PARALLEL_REQUESTS && throttler.Valid() && throttler.callers == AsCallers(tasks)
    }

    ghost predicate Valid()
      reads this, throttler
    {
      ThrottlerIsShared() && Invariant(View())
    }

    constructor ()
      ensures Valid() && fresh(throttler) && View() == INITIAL
    {
      uploadStatus, uploadInfo, main, tasks, log := New, None, Idle, [], [];
      throttler := new T.PromiseThrottler(MAX_PARALLEL_REQUESTS);
      new;
      RunKeepsInvariant([]);
    }

    method SetUploadStatus(status: Status)
      modifies `uploadStatus, `log
      ensures View() == Enter(old(View()), status)
    {
      if uploadStatus != Canceled {
        if uploadStatus != status {
          log := log + [Entered(uploadStatus, status)];
        }
        uploadStatus := status;
      }
    }

    /** A catch clause of `upload()`. */
    method Catch()
      modifies `uploadStatus, `log, `main
      ensures View() == Fail(old(View()))
    {
      SetUploadStatus(Errored);
      main := Returned(false);
    }

    method StartUpload(fileSize: int)
      modifies this
      ensures View() == Next(old(View()), Action.StartUpload(fileSize))
    {
      if main != Idle || uploadStatus != New {
        return;
      }
      if fileSize <= 0 {
        Catch();
        return;
      }
      SetUploadStatus(Initiating);
      main := Initiate;
    }

    method InitSettles(ok: bool, count: nat)
      modifies this
      ensures View() == Next(old(View()), Action.InitSettles(ok, count))
    {
      if main != Initiate {
        return;
      }
      if !ok || uploadStatus == Canceled {
        Catch();
      } else {
        main := InitReturned(count);
      }
    }

    method InitContinues()
      modifies this
      ensures View() == Next(old(View()), Action.InitContinues)
    {
      if main.InitReturned? {
        var count := main.count;
        SetUploadStatus(Uploading);
        uploadInfo := Some(count);
        main := InitGuard;
      }
    }

    method InitGuarded()
      modifies this
      ensures View() == Next(old(View()), Action.InitGuarded)
    {
      if main == InitGuard {
        if uploadStatus == Canceled {
          Catch();
        } else {
          main := Spawning;
        }
      }
    }

    /** Starts a task for every planned part; each calls the throttler. */
    method Spawn()
      requires ThrottlerIsShared() && (main == Spawning ==> tasks == [])
      modifies this, throttler
      ensures View() == Next(old(View()), Action.Spawn) && ThrottlerIsShared()
    {
      if main != Spawning || uploadInfo.None? {
        return;
      }
      var promises := [];
      for part := 0 to uploadInfo.value
        invariant promises == seq(part, _ => Queued)
      {
        promises := promises + [Queued];
      }
      throttler.Arrive(uploadInfo.value);
      tasks := promises;
      assert AsCallers(tasks) == seq(|tasks|, _ => T.Waiting);
      main := AwaitingParts;
    }

    /** `Promise.all`: rejected by the first failure, resolved when all have completed. */
    method Join()
      modifies this
      ensures View() == Next(old(View()), Action.Join)
    {
      if main != AwaitingParts {
        return;
      }
      var pending := false;
      for i := 0 to |tasks|
        invariant forall k :: 0 <= k < i ==> tasks[k] != Failed
        invariant pending <==> exists k :: 0 <= k < i && tasks[k] != Completed
      {
        if tasks[i] == Failed {
          Catch();
          return;
        }
        if tasks[i] != Completed {
          pending := true;
        }
      }
      if pending {
        return;
      }
      if uploadStatus != Uploading || |tasks| == 0 {
        Catch();
      } else {
        log := log + [FinishSent(1, AllParts(|tasks|))];
        main := Finishing(1);
      }
    }

    method FinishSettles(ok: bool)
      modifies this
      ensures View() == Next(old(View()), Action.FinishSettles(ok))
    {
      if main.Finishing? {
        main := if ok then FinishReturned else FinishSleeping(main.attempt);
      }
    }

    /** The retry loop around the finish request, which is not interrupted by a cancel. */
    method FinishWakes()
      modifies this
      ensures View() == Next(old(View()), Action.FinishWakes)
    {
      if main.FinishSleeping? {
        if main.attempt >= MAX_UPLOAD_ATTEMPTS {
          Catch();
        } else {
          log := log + [FinishSent(main.attempt + 1, AllParts(|tasks|))];
          main := Finishing(main.attempt + 1);
        }
      }
    }

    method Conclude()
      modifies this
      ensures View() == Next(old(View()), Action.Conclude)
    {
      if main == FinishReturned {
        SetUploadStatus(Complete);
        main := Returned(true);
      }
    }

    /** Cancels, aborts every request in flight, and tells the server of an upload that was not complete. */
    method CancelUpload()
      modifies this
      ensures uploadStatus == Canceled && uploadInfo == old(uploadInfo) && main == old(main)
      ensures |tasks| == old(|tasks|)
      ensures forall i :: 0 <= i < |tasks| ==> tasks[i] == if old(tasks[i]).Putting? then Hung else old(tasks[i])
      ensures log == old(log)
                + (if old(uploadStatus) == Canceled then [] else [Entered(old(uploadStatus), Canceled)])
                + (if uploadInfo.Some? && old(uploadStatus) != Complete then [AbortSent] else [])
      ensures View() == Next(old(View()), Action.Cancel) && AsCallers(tasks) == AsCallers(old(tasks))
    {
      var oldStatus := uploadStatus;
      SetUploadStatus(Canceled);
      ghost var before := tasks;
      for i := 0 to |tasks|
        invariant |tasks| == |before|
        invariant forall k :: 0 <= k < |tasks| ==> tasks[k] == if k < i && before[k].Putting? then Hung else before[k]
        invariant uploadStatus == Enter(old(View()), Canceled).status && log == Enter(old(View()), Canceled).log
        invariant uploadInfo == old(uploadInfo) && main == old(main)
      {
        if tasks[i].Putting? {
          tasks := tasks[i := Hung];
        }
      }
      assert tasks == AbortRequests(before);
      if uploadInfo.Some? && oldStatus != Complete {
        log := log + [AbortSent];
      }
    }

    /** A part's task moves; entering and leaving go through the throttler. */
    method MovePart(part: nat, op: TaskOp)
      requires ThrottlerIsShared() && part < |tasks|
      modifies this, throttler
      ensures View() == PartMoves(old(View()), part, op) && ThrottlerIsShared()
    {
      ghost var before := tasks;
      var task, canceled, room := tasks[part], uploadStatus == Canceled, false;
      TaskStepCases(task, op, canceled);
      if task == Queued && op.TryStart? {
        room := throttler.TryEnter(part);
      }
      var next := TaskStep(task, op, canceled, room);
      if task.Unwinding? && op.Unwind? {
        throttler.Leave(part, task.ok);
      }
      log := log + TaskEvents(part, task, op, canceled);
      tasks := tasks[part := next];
      assert AsCallers(tasks) == AsCallers(before)[part := AsCaller(next)];
    }

    /** A part's task resumes. A rejected part marks the upload as errored. */
    method ContinuePart(part: nat, op: TaskOp)
      requires ThrottlerIsShared()
      modifies this, throttler
      ensures View() == Next(old(View()), Part(part, op)) && ThrottlerIsShared()
    {
      if part < |tasks| {
        var rejected := RejectsPart(tasks[part], op);
        MovePart(part, op);
        if rejected {
          SetUploadStatus(Errored);
        }
      }
    }

    /** Whatever happens next, the object does the step of the model. */
    method Apply(a: Action)
      requires Valid()
      modifies this, throttler
      ensures Valid() && View() == Next(old(View()), a)
    {
      NextKeepsInvariant(View(), a);
      match a
      case StartUpload(fileSize) => StartUpload(fileSize);
      case InitSettles(ok, count) => InitSettles(ok, count);
      case InitContinues => InitContinues();
      case InitGuarded => InitGuarded();
      case Spawn => Spawn();
      case Join => Join();
      case FinishSettles(ok) => FinishSettles(ok);
      case FinishWakes => FinishWakes();
      case Conclude => Conclude();
      case Cancel => CancelUpload();
      case Part(part, op) => ContinuePart(part, op);
    }
  }

  /** Room matters only to a queued task; only entering and leaving concern the throttler. */
  lemma TaskStepCases(task: Task, op: TaskOp, canceled: bool)
    ensures var entering := TaskStep(task, op, canceled, true);
            var waiting := TaskStep(task, op, canceled, false);
            if task == Queued && op.TryStart? then
              AsCaller(entering) == T.Inside && waiting == Queued && Delta(task, entering) == 1
            else
              && waiting == entering
              && if task.Unwinding? && op.Unwind? then
                   AsCaller(entering) == T.Left(task.ok) && Delta(task, entering) == -1
                 else
                   AsCaller(entering) == AsCaller(task) && Delta(task, entering) == 0
  {
  }

  /**
   An upload object after any interleaving of its main task, its part tasks and cancels: it keeps the
   invariant, is canceled exactly if it ever was, and never has more than three part tasks inside.
   */
  method Drive(actions: seq<Action>) returns (upload: Upload)
    ensures upload.Valid() && upload.View() == Run(actions)
    ensures upload.uploadStatus == Canceled <==> exists n :: 0 <= n <= |actions| && Run(actions[..n]).status == Canceled
    ensures T.InsideCount(AsCallers(upload.tasks)) == upload.throttler.ongoing <= 3
  {
    upload := new Upload();
    for i := 0 to |actions|
      invariant fresh(upload) && fresh(upload.throttler)
      invariant upload.Valid() && upload.View() == Run(actions[..i])
    {
      assert actions[..i + 1][..i] == actions[..i];
      upload.Apply(actions[i]);
    }
    assert actions[..|actions|] == actions;
    if n :| 0 <= n <= |actions| && Run(actions[..n]).status == Canceled {
      CanceledIsAbsorbing(actions, n);
    }
  }
}
