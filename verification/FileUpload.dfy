/**
 The browser's upload: `upload()`, one task per planned part and `cancelUpload()`, interleaved. The
 program is cooperative, so an action is the stretch of code from one resumption to the next await.

 The log records what can be seen from outside: requests, answers and changes of the status.
 */
module FileUpload {
  import opened Prelude
  import T = Throttle

  const MAX_UPLOAD_ATTEMPTS := 10
  const MAX_PARALLEL_REQUESTS := 3

  datatype Status = New | Initiating | Uploading | Complete | Errored | Canceled

  /** `setUploadStatus`: a canceled upload stays canceled. */
  function SetStatus(current: Status, status: Status): Status {
    if current == Canceled then current else status
  }

  /** Where a part's task is waiting; `attempt` counts the calls of the retried function. */
  datatype Task =
    | Queued                                   // in the throttler's waiting loop
    | Hashing(attempt: nat)                    // the checksum worker
    | Hashed(attempt: nat)                     // resumed, about to send the part
    | Putting(attempt: nat)                    // the request is in flight
    | Settled(attempt: nat, ok: bool)          // the answer has arrived
    | Answered(attempt: nat, ok: bool)         // the answer has passed the cancel guard
    | AttemptDone(attempt: nat)                // the retried function has returned
    | RetryDone                                // the retry loop has returned
    | Sleeping(attempt: nat)                   // the pause after a failed attempt
    | Unwinding(ok: bool)                      // about to leave the throttler
    | Completed
    | Failed
    | Hung                                     // the aborted request never settles

  /** Where `upload()` is waiting. */
  datatype Main =
    | Idle
    | Initiate
    | InitReturned(count: nat)
    | InitGuard
    | Spawning
    | AwaitingParts
    | Finishing(attempt: nat)
    | FinishSleeping(attempt: nat)
    | FinishReturned
    | Returned(ok: bool)

  datatype Event =
    | Entered(from: Status, to: Status)
    | PutStarted(part: nat, attempt: nat)
    | PutAnswered(part: nat, ok: bool)
    | PartCompleted(part: nat)
    | FinishSent(attempt: nat, parts: seq<nat>)
    | AbortSent

  datatype State = State(
    status: Status, planned: Option<nat>, main: Main, tasks: seq<Task>, ongoing: int, log: seq<Event>)

  const INITIAL := State(New, None, Idle, [], 0, [])

  /** The steps of one part's task. */
  datatype TaskOp =
    | TryStart | HashSettles(ok: bool) | StartPut | PutLoads(ok: bool) | PutBreaks
    | Guard | Consume | GuardAttempt | GuardRetry | Wake | Unwind

  datatype Action =
    | StartUpload(fileSize: int)
    | InitSettles(ok: bool, count: nat)
    | InitContinues
    | InitGuarded
    | Spawn
    | Join
    | FinishSettles(ok: bool)
    | FinishWakes
    | Conclude
    | Cancel
    | Part(part: nat, op: TaskOp)

  // ----- one part -----

  /** A task's next place, given whether the upload is canceled and the throttler has room. */
  function TaskStep(task: Task, op: TaskOp, canceled: bool, room: bool): Task {
    match task
    case Queued => if !op.TryStart? || !room then task else if canceled then Unwinding(false) else Hashing(1)
    case Hashing(k) => if !op.HashSettles? then task else if op.ok && !canceled then Hashed(k) else Sleeping(k)
    case Hashed(k) => if !op.StartPut? then task else if canceled then Sleeping(k) else Putting(k)
    case Putting(k) => if op.PutLoads? then Settled(k, op.ok) else if op.PutBreaks? then Sleeping(k) else task
    case Settled(k, ok) => if !op.Guard? then task else if canceled then Sleeping(k) else Answered(k, ok)
    case Answered(k, ok) => if !op.Consume? then task else if ok then AttemptDone(k) else Sleeping(k)
    case AttemptDone(k) => if !op.GuardAttempt? then task else if canceled then Sleeping(k) else RetryDone
    case RetryDone => if !op.GuardRetry? then task else Unwinding(!canceled)
    case Sleeping(k) =>
      if !op.Wake? then task
      else if k >= MAX_UPLOAD_ATTEMPTS || canceled then Unwinding(false) else Hashing(k + 1)
    case Unwinding(ok) => if !op.Unwind? then task else if ok then Completed else Failed
    case _ => task
  }

  /** What a task's step does that can be seen from outside. */
  function TaskEvents(part: nat, task: Task, op: TaskOp, canceled: bool): seq<Event> {
    if task.Hashed? && op.StartPut? && !canceled then [PutStarted(part, task.attempt)]
    else if task.Putting? && op.PutLoads? then [PutAnswered(part, op.ok)]
    else if task.Answered? && op.Consume? && task.ok then [PartCompleted(part)]
    else []
  }

  /** What a task's step adds to the throttler's counter. */
  function Delta(before: Task, after: Task): int {
    if before == Queued && after != Queued then 1
    else if before.Unwinding? && !after.Unwinding? then -1
    else 0
  }

  /** A rejected part marks the upload as errored, though the attempt is retried. */
  predicate RejectsPart(task: Task, op: TaskOp) {
    op.Consume? && task.Answered? && !task.ok
  }

  // ----- the whole upload -----

  function Enter(s: State, status: Status): State {
    if SetStatus(s.status, status) == s.status then s
    else s.(status := status, log := s.log + [Entered(s.status, status)])
  }

  /** The catch clauses of `upload()`. */
  function Fail(s: State): State { Enter(s, Errored).(main := Returned(false)) }

  function AllParts(count: nat): seq<nat> { seq(count, i => i) }

  function SendFinish(s: State, attempt: nat): State {
    s.(main := Finishing(attempt), log := s.log + [FinishSent(attempt, AllParts(|s.tasks|))])
  }

  /** Every request in flight is aborted, and its promise then never settles. */
  function AbortRequests(tasks: seq<Task>): seq<Task> {
    seq(|tasks|, i requires 0 <= i < |tasks| => if tasks[i].Putting? then Hung else tasks[i])
  }

  /** `cancelUpload()` */
  function CancelStep(s: State): State {
    var t := Enter(s, Canceled);
    t.(tasks := AbortRequests(s.tasks),
       log := if s.planned.Some? && s.status != Complete then t.log + [AbortSent] else t.log)
  }

  /** `Promise.all` over the parts, and then the checks before the upload is finished. */
  function JoinStep(s: State): State {
    if exists i :: 0 <= i < |s.tasks| && s.tasks[i] == Failed then Fail(s)
    else if exists i :: 0 <= i < |s.tasks| && s.tasks[i] != Completed then s
    else if s.status != Uploading || |s.tasks| == 0 then Fail(s)
    else SendFinish(s, 1)
  }

  /** A part's step up to the change of status that a rejection brings. */
  function PartMoves(s: State, part: nat, op: TaskOp): State
    requires part < |s.tasks|
  {
    var room := T.Room(MAX_PARALLEL_REQUESTS, s.ongoing);
    var task := TaskStep(s.tasks[part], op, s.status == Canceled, room);
    s.(tasks := s.tasks[part := task],
       ongoing := s.ongoing + Delta(s.tasks[part], task),
       log := s.log + TaskEvents(part, s.tasks[part], op, s.status == Canceled))
  }

  function PartStep(s: State, part: nat, op: TaskOp): State
    requires part < |s.tasks|
  {
    var t := PartMoves(s, part, op);
    if RejectsPart(s.tasks[part], op) then Enter(t, Errored) else t
  }

  function Next(s: State, a: Action): (t: State)
    ensures s.status == Canceled ==> t.status == Canceled
  {
    match a
    case StartUpload(fileSize) =>
      if s.main != Idle || s.status != New then s
      else if fileSize <= 0 then Fail(s)
      else Enter(s, Initiating).(main := Initiate)
    case InitSettles(ok, count) =>
      if s.main != Initiate then s
      else if !ok || s.status == Canceled then Fail(s)
      else s.(main := InitReturned(count))
    case InitContinues =>
      if !s.main.InitReturned? then s
      else Enter(s, Uploading).(planned := Some(s.main.count), main := InitGuard)
    case InitGuarded =>
      if s.main != InitGuard then s else if s.status == Canceled then Fail(s) else s.(main := Spawning)
    case Spawn =>
      if s.main != Spawning || s.planned.None? then s
      else s.(tasks := seq(s.planned.value, _ => Queued), main := AwaitingParts)
    case Join => if s.main != AwaitingParts then s else JoinStep(s)
    case FinishSettles(ok) =>
      if !s.main.Finishing? then s
      else if ok then s.(main := FinishReturned) else s.(main := FinishSleeping(s.main.attempt))
    case FinishWakes =>
      if !s.main.FinishSleeping? then s
      else if s.main.attempt >= MAX_UPLOAD_ATTEMPTS then Fail(s)
      else SendFinish(s, s.main.attempt + 1)
    case Conclude =>
      if s.main != FinishReturned then s else Enter(s, Complete).(main := Returned(true))
    case Cancel => CancelStep(s)
    case Part(part, op) => if part < |s.tasks| then PartStep(s, part, op) else s
  }

  function RunFrom(s: State, actions: seq<Action>): State
    decreases |actions|
  {
    if actions == [] then s
    else Next(RunFrom(s, actions[..|actions| - 1]), actions[|actions| - 1])
  }

  function Run(actions: seq<Action>): State { RunFrom(INITIAL, actions) }

  lemma {:induction false} RunConcat(s: State, a: seq<Action>, b: seq<Action>)
    ensures RunFrom(s, a + b) == RunFrom(RunFrom(s, a), b)
    decreases |b|
  {
    if b == [] {
      assert a + b == a;
    } else {
      assert (a + b)[..|a + b| - 1] == a + b[..|b| - 1];
      RunConcat(s, a, b[..|b| - 1]);
    }
  }

  // ----- facts about logs -----

  ghost predicate CanceledIn(log: seq<Event>) {
    exists i :: 0 <= i < |log| && log[i].Entered? && log[i].to == Canceled
  }

  ghost predicate RejectedIn(log: seq<Event>) {
    exists i :: 0 <= i < |log| && log[i].PutAnswered? && !log[i].ok
  }

  ghost predicate CompletedIn(log: seq<Event>, part: nat) {
    exists i :: 0 <= i < |log| && log[i] == PartCompleted(part)
  }

  /** How often a part's request was sent. */
  function Puts(log: seq<Event>, part: nat): nat
    decreases |log|
  {
    if log == [] then 0
    else Puts(log[..|log| - 1], part) +
         (if log[|log| - 1].PutStarted? && log[|log| - 1].part == part then 1 else 0)
  }

  /** What must have happened before an event. */
  ghost predicate Justified(past: seq<Event>, e: Event, planned: Option<nat>) {
    match e
    case PutStarted(part, attempt) => !CanceledIn(past)
    case Entered(from, to) =>
      && from != Canceled
      && (to == Complete ==>
            && from == Uploading && planned.Some? && planned.value > 0 && !RejectedIn(past)
            && forall part: nat :: part < planned.value ==> CompletedIn(past, part))
    case FinishSent(attempt, parts) =>
      && planned.Some? && parts == AllParts(planned.value)
      && (forall part: nat :: part < planned.value ==> CompletedIn(past, part))
      && !RejectedIn(past) && (attempt == 1 ==> !CanceledIn(past))
    case _ => true
  }

  ghost predicate LogIsJustified(log: seq<Event>, planned: Option<nat>) {
    forall i :: 0 <= i < |log| ==> Justified(log[..i], log[i], planned)
  }

  lemma Snoc(log: seq<Event>, e: Event)
    ensures CanceledIn(log + [e]) <==> CanceledIn(log) || (e.Entered? && e.to == Canceled)
    ensures RejectedIn(log + [e]) <==> RejectedIn(log) || (e.PutAnswered? && !e.ok)
    ensures forall part :: CompletedIn(log + [e], part) <==> CompletedIn(log, part) || e == PartCompleted(part)
    ensures forall part ::
              Puts(log + [e], part) == Puts(log, part) + (if e.PutStarted? && e.part == part then 1 else 0)
  {
    var more := log + [e];
    assert more[..|log|] == log && e == more[|log|];
    if i :| 0 <= i < |log| && log[i].Entered? && log[i].to == Canceled {
      assert more[i] == log[i];
    }
    if i :| 0 <= i < |log| && log[i].PutAnswered? && !log[i].ok {
      assert more[i] == log[i];
    }
    forall part
      ensures CompletedIn(more, part) <==> CompletedIn(log, part) || e == PartCompleted(part)
    {
      if i :| 0 <= i < |log| && log[i] == PartCompleted(part) {
        assert more[i] == PartCompleted(part);
      }
    }
  }

  lemma JustifiedSnoc(log: seq<Event>, e: Event, planned: Option<nat>)
    requires LogIsJustified(log, planned) && Justified(log, e, planned)
    ensures LogIsJustified(log + [e], planned)
  {
    var more := log + [e];
    assert more[..|log|] == log;
    forall i | 0 <= i < |more|
      ensures Justified(more[..i], more[i], planned)
    {
      if i < |log| {
        assert more[..i] == log[..i];
      }
    }
  }

  /** The plan becomes known only after everything logged so far could happen without it. */
  lemma PlanKeepsJustified(log: seq<Event>, count: nat)
    requires LogIsJustified(log, None)
    ensures LogIsJustified(log, Some(count))
  {
  }

  // ----- what every step keeps -----

  /** A task that has reported its part as completed. */
  predicate HasCompleted(task: Task) {
    task.AttemptDone? || task.RetryDone? || task == Unwinding(true) || task == Completed
  }

  predicate HasAttempt(task: Task) {
    || task.Hashing? || task.Hashed? || task.Putting? || task.Settled? || task.Answered?
    || task.AttemptDone? || task.Sleeping?
  }

  /** How many requests a task can have sent by the time it is here. */
  function PutLimit(task: Task): int {
    if task.Queued? then 0
    else if task.Hashing? || task.Hashed? then task.attempt - 1
    else if HasAttempt(task) then task.attempt
    else MAX_UPLOAD_ATTEMPTS
  }

  predicate AttemptInRange(task: Task) {
    HasAttempt(task) ==> 1 <= task.attempt <= MAX_UPLOAD_ATTEMPTS
  }

  /** An answer that rejects the part and has not been acted on yet. */
  predicate HoldsRejection(task: Task) {
    (task.Settled? || task.Answered?) && !task.ok
  }

  ghost predicate TaskSound(task: Task, part: nat, log: seq<Event>) {
    && AttemptInRange(task) && Puts(log, part) <= PutLimit(task)
    && (HasCompleted(task) ==> CompletedIn(log, part))
    && (HoldsRejection(task) ==> RejectedIn(log))
  }

  ghost predicate AllCompleted(tasks: seq<Task>) {
    forall i :: 0 <= i < |tasks| ==> tasks[i] == Completed
  }

  /** Where `upload()` is limits the status, the tasks and what has happened. */
  ghost predicate PhaseSound(s: State) {
    match s.main
    case Idle => (s.status == New || s.status == Canceled) && s.tasks == [] && s.planned.None?
    case Initiate => (s.status == Initiating || s.status == Canceled) && s.tasks == [] && s.planned.None?
    case InitReturned(_) => (s.status == Initiating || s.status == Canceled) && s.tasks == [] && s.planned.None?
    case InitGuard => (s.status == Uploading || s.status == Canceled) && s.tasks == [] && s.planned.Some?
    case Spawning => (s.status == Uploading || s.status == Canceled) && s.tasks == [] && s.planned.Some?
    case AwaitingParts =>
      && s.status in {Uploading, Errored, Canceled} && s.planned == Some(|s.tasks|)
      && (s.status == Errored ==> RejectedIn(s.log))
    case Returned(_) =>
      && (s.tasks == [] || s.planned == Some(|s.tasks|))
      && (s.status == Complete ==> AllCompleted(s.tasks) && !RejectedIn(s.log))
    case Finishing(attempt) => ReadyToFinish(s) && attempt >= 1
    case FinishSleeping(attempt) => ReadyToFinish(s) && attempt >= 1
    case FinishReturned => ReadyToFinish(s)
  }

  ghost predicate ReadyToFinish(s: State) {
    && (s.status == Uploading || s.status == Canceled)
    && s.planned == Some(|s.tasks|) && |s.tasks| > 0 && AllCompleted(s.tasks)
    && !RejectedIn(s.log)
  }

  ghost predicate LogSound(log: seq<Event>, status: Status, planned: Option<nat>) {
    LogIsJustified(log, planned) && (status == Canceled <==> CanceledIn(log))
  }

  /** A rejected part has marked the upload or is about to. */
  ghost predicate RejectionSound(log: seq<Event>, status: Status, tasks: seq<Task>) {
    RejectedIn(log) ==> status in {Errored, Canceled} || exists i :: 0 <= i < |tasks| && HoldsRejection(tasks[i])
  }

  ghost predicate TasksSound(tasks: seq<Task>, log: seq<Event>) {
    && (forall part: nat :: part >= |tasks| ==> Puts(log, part) == 0)
    && forall i :: 0 <= i < |tasks| ==> TaskSound(tasks[i], i, log)
  }

  ghost predicate Invariant(s: State) {
    && LogSound(s.log, s.status, s.planned) && RejectionSound(s.log, s.status, s.tasks)
    && PhaseSound(s) && TasksSound(s.tasks, s.log)
  }

  /** Entering a status other than complete. */
  lemma EnterKeepsLog(s: State, status: Status)
    requires LogSound(s.log, s.status, s.planned) && status != Complete
    ensures var t := Enter(s, status);
            && LogSound(t.log, t.status, s.planned)
            && (RejectedIn(t.log) <==> RejectedIn(s.log))
            && (forall part :: CompletedIn(t.log, part) <==> CompletedIn(s.log, part))
            && (forall part :: Puts(t.log, part) == Puts(s.log, part))
  {
    Snoc(s.log, Entered(s.status, status));
    if SetStatus(s.status, status) != s.status {
      JustifiedSnoc(s.log, Entered(s.status, status), s.planned);
    }
  }

  lemma FailKeepsInvariant(s: State)
    requires Invariant(s) && (s.tasks == [] || s.planned == Some(|s.tasks|))
    ensures Invariant(Fail(s))
  {
    EnterKeepsLog(s, Errored);
  }

  lemma AbortKeepsTasks(s: State, log: seq<Event>)
    requires TasksSound(s.tasks, s.log)
    requires forall part :: Puts(log, part) == Puts(s.log, part)
    requires forall part :: CompletedIn(s.log, part) ==> CompletedIn(log, part)
    requires RejectedIn(s.log) ==> RejectedIn(log)
    ensures TasksSound(AbortRequests(s.tasks), log)
    ensures AllCompleted(s.tasks) ==> AbortRequests(s.tasks) == s.tasks
  {
  }

  lemma CancelKeepsLog(s: State)
    requires LogSound(s.log, s.status, s.planned)
    ensures LogSound(CancelStep(s).log, CancelStep(s).status, s.planned)
    ensures forall part :: Puts(CancelStep(s).log, part) == Puts(s.log, part)
    ensures forall part :: CompletedIn(s.log, part) ==> CompletedIn(CancelStep(s).log, part)
    ensures RejectedIn(CancelStep(s).log) <==> RejectedIn(s.log)
  {
    var log := Enter(s, Canceled).log;
    EnterKeepsLog(s, Canceled);
    Snoc(log, AbortSent);
    JustifiedSnoc(log, AbortSent, s.planned);
  }

  lemma CancelKeepsInvariant(s: State)
    requires Invariant(s)
    ensures Invariant(CancelStep(s))
  {
    CancelKeepsLog(s);
    AbortKeepsTasks(s, CancelStep(s).log);
  }

  /** The finish request is sent, and completion entered, only after every part has completed. */
  lemma PartsAreCompleted(s: State)
    requires Invariant(s) && AllCompleted(s.tasks)
    ensures forall part: nat :: part < |s.tasks| ==> CompletedIn(s.log, part)
    ensures RejectedIn(s.log) ==> s.status in {Errored, Canceled}
  {
    forall part: nat | part < |s.tasks|
      ensures CompletedIn(s.log, part)
    {
      assert TaskSound(s.tasks[part], part, s.log);
    }
  }

  lemma SendFinishKeepsInvariant(s: State, attempt: nat)
    requires Invariant(s) && s.planned == Some(|s.tasks|) && |s.tasks| > 0 && AllCompleted(s.tasks) && attempt >= 1
    requires !RejectedIn(s.log) && (s.status == Uploading || (s.status == Canceled && attempt > 1))
    ensures Invariant(SendFinish(s, attempt))
  {
    var e := FinishSent(attempt, AllParts(|s.tasks|));
    PartsAreCompleted(s);
    OtherEventKeepsTasks(s, e);
    Snoc(s.log, e);
    JustifiedSnoc(s.log, e, s.planned);
  }

  /** Events other than part requests do not concern the tasks. */
  lemma OtherEventKeepsTasks(s: State, e: Event)
    requires TasksSound(s.tasks, s.log) && !e.PutStarted?
    ensures TasksSound(s.tasks, s.log + [e])
  {
    Snoc(s.log, e);
    forall i | 0 <= i < |s.tasks|
      ensures TaskSound(s.tasks[i], i, s.log + [e])
    {
      assert TaskSound(s.tasks[i], i, s.log);
    }
  }

  lemma ConcludeKeepsInvariant(s: State)
    requires Invariant(s) && s.main == FinishReturned
    ensures Invariant(Enter(s, Complete).(main := Returned(true)))
  {
    var e := Entered(s.status, Complete);
    if s.status == Uploading {
      PartsAreCompleted(s);
      OtherEventKeepsTasks(s, e);
      Snoc(s.log, e);
      JustifiedSnoc(s.log, e, s.planned);
    }
  }

  // ----- the step of one part -----

  /** What one part's step does to the log. */
  lemma TaskLog(part: nat, task: Task, op: TaskOp, canceled: bool, log: seq<Event>)
    ensures var events := TaskEvents(part, task, op, canceled);
            && (forall other :: Puts(log + events, other) ==
                  Puts(log, other) + (if events != [] && events[0].PutStarted? && other == part then 1 else 0))
            && (forall other :: CompletedIn(log + events, other) <==>
                  CompletedIn(log, other) || events == [PartCompleted(other)])
            && (CanceledIn(log + events) <==> CanceledIn(log))
            && (RejectedIn(log + events) <==> RejectedIn(log) || events == [PutAnswered(part, false)])
  {
    var events := TaskEvents(part, task, op, canceled);
    if events == [] {
      assert log + events == log;
    } else {
      Snoc(log, events[0]);
      assert events == [events[0]];
    }
  }

  lemma TaskLogJustified(part: nat, task: Task, op: TaskOp, canceled: bool, log: seq<Event>, planned: Option<nat>)
    requires LogIsJustified(log, planned) && (canceled <==> CanceledIn(log))
    ensures LogIsJustified(log + TaskEvents(part, task, op, canceled), planned)
  {
    var events := TaskEvents(part, task, op, canceled);
    if events == [] {
      assert log + events == log;
    } else {
      assert events == [events[0]];
      JustifiedSnoc(log, events[0], planned);
    }
  }

  /** A step sends at most one request more than before, and completes only by reporting the part. */
  lemma TaskMoves(part: nat, task: Task, op: TaskOp, canceled: bool, room: bool)
    requires AttemptInRange(task)
    ensures var after, events := TaskStep(task, op, canceled, room), TaskEvents(part, task, op, canceled);
            && AttemptInRange(after)
            && PutLimit(after) >= PutLimit(task) + (if events != [] && events[0].PutStarted? then 1 else 0)
            && (HasCompleted(after) ==> HasCompleted(task) || events == [PartCompleted(part)])
            && (HoldsRejection(after) ==> HoldsRejection(task) || events == [PutAnswered(part, false)])
  {
    match task
    case Hashing(k) =>
    case Hashed(k) =>
    case Putting(k) =>
    case Settled(k, ok) =>
    case Answered(k, ok) =>
    case AttemptDone(k) =>
    case Sleeping(k) =>
    case _ =>
  }

  lemma TaskStaysSound(part: nat, task: Task, op: TaskOp, canceled: bool, room: bool, log: seq<Event>)
    requires TaskSound(task, part, log)
    ensures TaskSound(TaskStep(task, op, canceled, room), part, log + TaskEvents(part, task, op, canceled))
  {
    TaskLog(part, task, op, canceled, log);
    TaskMoves(part, task, op, canceled, room);
  }

  lemma PartKeepsTasks(s: State, part: nat, op: TaskOp)
    requires Invariant(s) && part < |s.tasks|
    ensures var t := PartMoves(s, part, op);
            TasksSound(t.tasks, t.log) && LogSound(t.log, t.status, t.planned)
  {
    var t := PartMoves(s, part, op);
    TaskLog(part, s.tasks[part], op, s.status == Canceled, s.log);
    TaskLogJustified(part, s.tasks[part], op, s.status == Canceled, s.log, s.planned);
    forall i | 0 <= i < |t.tasks|
      ensures TaskSound(t.tasks[i], i, t.log)
    {
      assert TaskSound(s.tasks[i], i, s.log);
      if i == part {
        var room := T.Room(MAX_PARALLEL_REQUESTS, s.ongoing);
        TaskStaysSound(part, s.tasks[part], op, s.status == Canceled, room, s.log);
      }
    }
  }

  lemma PartKeepsRejection(s: State, part: nat, op: TaskOp)
    requires Invariant(s) && part < |s.tasks|
    ensures var t := PartMoves(s, part, op);
            RejectionSound(t.log, t.status, t.tasks) || RejectsPart(s.tasks[part], op)
  {
    var t := PartMoves(s, part, op);
    TaskLog(part, s.tasks[part], op, s.status == Canceled, s.log);
    if RejectedIn(s.log) && s.status !in {Errored, Canceled} {
      var i :| 0 <= i < |s.tasks| && HoldsRejection(s.tasks[i]);
      assert i != part ==> HoldsRejection(t.tasks[i]);
      assert i == part ==> HoldsRejection(t.tasks[part]) || RejectsPart(s.tasks[part], op);
    } else if RejectedIn(t.log) && !RejectedIn(s.log) {
      assert HoldsRejection(t.tasks[part]);
    }
  }

  /** Once every part has completed no task moves any more. */
  lemma PartKeepsPhase(s: State, part: nat, op: TaskOp)
    requires Invariant(s) && part < |s.tasks|
    ensures PhaseSound(PartStep(s, part, op))
  {
    var t := PartMoves(s, part, op);
    TaskLog(part, s.tasks[part], op, s.status == Canceled, s.log);
    if RejectsPart(s.tasks[part], op) {
      assert TaskSound(s.tasks[part], part, s.log);
      Snoc(t.log, Entered(t.status, Errored));
    }
  }

  lemma PartKeepsInvariant(s: State, part: nat, op: TaskOp)
    requires Invariant(s) && part < |s.tasks|
    ensures Invariant(PartStep(s, part, op))
  {
    PartKeepsTasks(s, part, op);
    PartKeepsRejection(s, part, op);
    PartKeepsPhase(s, part, op);
    if RejectsPart(s.tasks[part], op) {
      EntersWithTasks(PartMoves(s, part, op));
    }
  }

  lemma EntersWithTasks(s: State)
    requires TasksSound(s.tasks, s.log) && LogSound(s.log, s.status, s.planned)
    ensures var t := Enter(s, Errored);
            && TasksSound(t.tasks, t.log) && LogSound(t.log, t.status, t.planned)
            && RejectionSound(t.log, t.status, t.tasks)
  {
    EnterKeepsLog(s, Errored);
    forall i | 0 <= i < |s.tasks|
      ensures TaskSound(s.tasks[i], i, Enter(s, Errored).log)
    {
      assert TaskSound(s.tasks[i], i, s.log);
    }
  }

  // ----- every run -----

  lemma InitKeepsInvariant(s: State, a: Action)
    requires Invariant(s)
    requires a.StartUpload? || a.InitSettles? || a.InitContinues? || a.InitGuarded? || a.Spawn?
    ensures Invariant(Next(s, a))
  {
    match a
    case StartUpload(fileSize) =>
      if s.main == Idle {
        FailKeepsInvariant(s);
        EnterKeepsLog(s, Initiating);
      }
    case InitSettles(ok, count) =>
      if s.main == Initiate {
        FailKeepsInvariant(s);
      }
    case InitContinues =>
      if s.main.InitReturned? {
        EnterKeepsLog(s, Uploading);
        PlanKeepsJustified(Enter(s, Uploading).log, s.main.count);
      }
    case InitGuarded =>
      if s.main == InitGuard {
        FailKeepsInvariant(s);
      }
    case Spawn =>
  }

  lemma FinishWakeKeepsInvariant(s: State)
    requires Invariant(s)
    ensures Invariant(Next(s, FinishWakes))
  {
    if s.main.FinishSleeping? {
      assert ReadyToFinish(s);
      if s.main.attempt >= MAX_UPLOAD_ATTEMPTS {
        FailKeepsInvariant(s);
      } else {
        SendFinishKeepsInvariant(s, s.main.attempt + 1);
      }
    }
  }

  lemma FinishKeepsInvariant(s: State, a: Action)
    requires Invariant(s) && (a.FinishSettles? || a.FinishWakes? || a.Conclude?)
    ensures Invariant(Next(s, a))
  {
    match a
    case FinishSettles(ok) =>
    case FinishWakes => FinishWakeKeepsInvariant(s);
    case Conclude =>
      if s.main == FinishReturned {
        ConcludeKeepsInvariant(s);
      }
  }

  lemma NextKeepsInvariant(s: State, a: Action)
    requires Invariant(s)
    ensures Invariant(Next(s, a))
  {
    match a
    case Join =>
      if s.main == AwaitingParts {
        if (exists i :: 0 <= i < |s.tasks| && s.tasks[i] == Failed) {
          FailKeepsInvariant(s);
        } else if !(exists i :: 0 <= i < |s.tasks| && s.tasks[i] != Completed) {
          if s.status != Uploading || |s.tasks| == 0 {
            FailKeepsInvariant(s);
          } else {
            SendFinishKeepsInvariant(s, 1);
          }
        }
      }
    case Cancel => CancelKeepsInvariant(s);
    case Part(part, op) =>
      if part < |s.tasks| {
        PartKeepsInvariant(s, part, op);
      }
    case FinishSettles(_) => FinishKeepsInvariant(s, a);
    case FinishWakes => FinishKeepsInvariant(s, a);
    case Conclude => FinishKeepsInvariant(s, a);
    case _ => InitKeepsInvariant(s, a);
  }

  lemma {:induction false} RunKeepsInvariant(actions: seq<Action>)
    ensures Invariant(Run(actions))
    decreases |actions|
  {
    if actions != [] {
      RunKeepsInvariant(actions[..|actions| - 1]);
      NextKeepsInvariant(Run(actions[..|actions| - 1]), actions[|actions| - 1]);
    }
  }

  /** In every interleaving, a canceled upload stays canceled. */
  lemma {:induction false} CanceledIsAbsorbing(actions: seq<Action>, n: nat)
    requires n <= |actions| && Run(actions[..n]).status == Canceled
    ensures Run(actions).status == Canceled
    decreases |actions|
  {
    if n == |actions| {
      assert actions[..n] == actions;
    } else {
      var front := actions[..|actions| - 1];
      assert front[..n] == actions[..n];
      CanceledIsAbsorbing(front, n);
    }
  }

  /** No part request is sent after the upload was canceled. */
  lemma {:induction false} NoPutAfterCancel(actions: seq<Action>, i: nat, j: nat)
    requires i < j < |Run(actions).log|
    requires Run(actions).log[i].Entered? && Run(actions).log[i].to == Canceled
    ensures !Run(actions).log[j].PutStarted?
  {
    RunKeepsInvariant(actions);
    var log := Run(actions).log;
    assert Justified(log[..j], log[j], Run(actions).planned);
    assert log[..j][i] == log[i];
  }

  /** Each part is sent at most ten times. */
  lemma AtMostTenPuts(actions: seq<Action>, part: nat)
    ensures Puts(Run(actions).log, part) <= MAX_UPLOAD_ATTEMPTS
  {
    RunKeepsInvariant(actions);
    var s := Run(actions);
    if part < |s.tasks| {
      assert TaskSound(s.tasks[part], part, s.log);
    }
  }

  /**
   The upload becomes complete only while uploading, after every planned part has completed, and only if
   no part was ever answered with a rejection, even one that a retry made good.
   */
  lemma {:induction false} CompleteIsEarned(actions: seq<Action>, i: nat)
    requires i < |Run(actions).log| && Run(actions).log[i].Entered? && Run(actions).log[i].to == Complete
    ensures var s := Run(actions);
            && s.log[i].from == Uploading && s.planned.Some? && s.planned.value > 0
            && (forall part: nat :: part < s.planned.value ==> CompletedIn(s.log[..i], part))
            && !RejectedIn(s.log[..i])
  {
    RunKeepsInvariant(actions);
    var s := Run(actions);
    assert Justified(s.log[..i], s.log[i], s.planned);
  }

  /**
   A finish request reports every planned part in plan order, none of which was ever rejected, and the
   first one precedes any cancel.
   */
  lemma {:induction false} FinishReportsAllParts(actions: seq<Action>, i: nat)
    requires i < |Run(actions).log| && Run(actions).log[i].FinishSent?
    ensures var s := Run(actions);
            && s.planned.Some? && s.log[i].parts == AllParts(s.planned.value)
            && (forall part: nat :: part < s.planned.value ==> CompletedIn(s.log[..i], part))
            && !RejectedIn(s.log[..i]) && (s.log[i].attempt == 1 ==> !CanceledIn(s.log[..i]))
  {
    RunKeepsInvariant(actions);
    var s := Run(actions);
    assert Justified(s.log[..i], s.log[i], s.planned);
  }

  /**
   Once every part has completed, the finish request is sent, and the upload becomes complete when that
   is answered, exactly if there was no cancel and no part was ever answered with a rejection.
   */
  lemma {:induction false} FinishesIff(actions: seq<Action>)
    requires var s := Run(actions); s.main == AwaitingParts && AllCompleted(s.tasks) && |s.tasks| > 0
    ensures var s := Run(actions);
            && (Next(s, Join).main.Finishing? <==> !CanceledIn(s.log) && !RejectedIn(s.log))
            && (RunFrom(s, [Join, FinishSettles(true), Conclude]).status == Complete <==>
                  !CanceledIn(s.log) && !RejectedIn(s.log))
  {
    RunKeepsInvariant(actions);
    var s := Run(actions);
    PartsAreCompleted(s);
    var joined := Next(s, Join);
    var answered := Next(joined, FinishSettles(true));
    RunThree(s, Join, FinishSettles(true), Conclude);
  }

  lemma RunThree(s: State, a: Action, b: Action, c: Action)
    ensures RunFrom(s, [a, b, c]) == Next(Next(Next(s, a), b), c)
  {
    var one, two, three := [a], [a, b], [a, b, c];
    assert three[..|three| - 1] == two && two[..|two| - 1] == one && one[..|one| - 1] == [];
    assert RunFrom(s, one) == Next(s, a) && RunFrom(s, two) == Next(RunFrom(s, one), b);
  }

  // ----- retries -----

  /** A task inside the throttler that is resumed by these operations, while the upload is not canceled. */
  function RunTask(task: Task, ops: seq<TaskOp>): Task
    decreases |ops|
  {
    if ops == [] then task else RunTask(TaskStep(task, ops[0], false, true), ops[1..])
  }

  datatype Failure = ChecksumFails | ConnectionBreaks | PartIsRejected

  function FailedAttempt(f: Failure): seq<TaskOp> {
    match f
    case ChecksumFails => [HashSettles(false), Wake]
    case ConnectionBreaks => [HashSettles(true), StartPut, PutBreaks, Wake]
    case PartIsRejected => [HashSettles(true), StartPut, PutLoads(false), Guard, Consume, Wake]
  }

  const GOOD_ATTEMPT: seq<TaskOp> :=
    [HashSettles(true), StartPut, PutLoads(true), Guard, Consume, GuardAttempt, GuardRetry, Unwind]

  /** Attempts that fail like this, one after the other, and then one that succeeds. */
  function Attempts(failures: seq<Failure>): seq<TaskOp> {
    if failures == [] then GOOD_ATTEMPT else FailedAttempt(failures[0]) + Attempts(failures[1..])
  }

  lemma {:induction false} RunTaskConcat(task: Task, a: seq<TaskOp>, b: seq<TaskOp>)
    ensures RunTask(task, a + b) == RunTask(RunTask(task, a), b)
    decreases |a|
  {
    if a == [] {
      assert a + b == b;
    } else {
      assert (a + b)[0] == a[0] && (a + b)[1..] == a[1..] + b;
      RunTaskConcat(TaskStep(task, a[0], false, true), a[1..], b);
    }
  }

  /** Some request on the way is answered with a rejection. */
  predicate MeetsRejection(task: Task, ops: seq<TaskOp>)
    decreases |ops|
  {
    && ops != []
    && ((task.Putting? && ops[0] == PutLoads(false)) || MeetsRejection(TaskStep(task, ops[0], false, true), ops[1..]))
  }

  lemma {:induction false} MeetsRejectionConcat(task: Task, a: seq<TaskOp>, b: seq<TaskOp>)
    ensures MeetsRejection(task, a + b) <==> MeetsRejection(task, a) || MeetsRejection(RunTask(task, a), b)
    decreases |a|
  {
    if a == [] {
      assert a + b == b;
    } else {
      assert (a + b)[0] == a[0] && (a + b)[1..] == a[1..] + b;
      MeetsRejectionConcat(TaskStep(task, a[0], false, true), a[1..], b);
    }
  }

  lemma MeetsRejectionSnoc(task: Task, ops: seq<TaskOp>, op: TaskOp)
    ensures MeetsRejection(task, ops + [op]) <==>
            MeetsRejection(task, ops) || (RunTask(task, ops).Putting? && op == PutLoads(false))
  {
    MeetsRejectionConcat(task, ops, [op]);
  }

  lemma FailedAttemptMoves(k: nat, f: Failure)
    ensures RunTask(Hashing(k), FailedAttempt(f)) ==
            if k >= MAX_UPLOAD_ATTEMPTS then Unwinding(false) else Hashing(k + 1)
  {
    var sending := [HashSettles(true), StartPut];
    match f
    case ChecksumFails =>
      RunTaskConcat(Hashing(k), [HashSettles(false)], [Wake]);
    case ConnectionBreaks =>
      RunTaskConcat(Hashing(k), sending, [PutBreaks, Wake]);
    case PartIsRejected =>
      RunTaskConcat(Hashing(k), sending, [PutLoads(false), Guard] + [Consume, Wake]);
      RunTaskConcat(Putting(k), [PutLoads(false), Guard], [Consume, Wake]);
      assert FailedAttempt(f) == sending + ([PutLoads(false), Guard] + [Consume, Wake]);
  }

  lemma GoodAttemptCompletes(k: nat)
    ensures RunTask(Hashing(k), GOOD_ATTEMPT) == Completed
  {
  }

  lemma {:induction false} StaysUncompleted(task: Task, ops: seq<TaskOp>)
    requires task == Unwinding(false) || task == Failed
    ensures RunTask(task, ops) != Completed
    decreases |ops|
  {
    if ops != [] {
      StaysUncompleted(TaskStep(task, ops[0], false, true), ops[1..]);
    }
  }

  lemma {:induction false} CompletesFrom(k: nat, failures: seq<Failure>)
    requires 1 <= k <= MAX_UPLOAD_ATTEMPTS
    ensures RunTask(Hashing(k), Attempts(failures)) == Completed <==> k + |failures| <= MAX_UPLOAD_ATTEMPTS
    decreases |failures|
  {
    if failures == [] {
      GoodAttemptCompletes(k);
    } else {
      RunTaskConcat(Hashing(k), FailedAttempt(failures[0]), Attempts(failures[1..]));
      FailedAttemptMoves(k, failures[0]);
      if k < MAX_UPLOAD_ATTEMPTS {
        CompletesFrom(k + 1, failures[1..]);
      } else {
        StaysUncompleted(Unwinding(false), Attempts(failures[1..]));
      }
    }
  }

  /** The operations of one part's task among the actions. */
  function OpsOf(part: nat, actions: seq<Action>): seq<TaskOp>
    decreases |actions|
  {
    if actions == [] then []
    else
      var a := actions[|actions| - 1];
      OpsOf(part, actions[..|actions| - 1]) + (if a.Part? && a.part == part then [a.op] else [])
  }

  /** Without a cancel, a part that is inside the throttler is moved by its own operations only. */
  lemma {:induction false} OthersDoNotMatter(s: State, part: nat, more: seq<Action>)
    requires Invariant(s) && s.status != Canceled && part < |s.tasks| && s.tasks[part] != Queued
    requires Cancel !in more
    ensures var t := RunFrom(s, more);
            && Invariant(t) && t.status != Canceled && part < |t.tasks| && t.tasks[part] != Queued
            && t.tasks[part] == RunTask(s.tasks[part], OpsOf(part, more))
            && (MeetsRejection(s.tasks[part], OpsOf(part, more)) ==> RejectedIn(t.log))
    decreases |more|
  {
    if more != [] {
      var front, a := more[..|more| - 1], more[|more| - 1];
      var before := RunFrom(s, front);
      OthersDoNotMatter(s, part, front);
      NextKeepsInvariant(before, a);
      OneMove(before, part, a);
      LogGrows(before, a);
      if a.Part? && a.part == part {
        RunTaskConcat(s.tasks[part], OpsOf(part, front), [a.op]);
        MeetsRejectionSnoc(s.tasks[part], OpsOf(part, front), a.op);
        TaskLog(part, before.tasks[part], a.op, false, before.log);
      } else {
        assert OpsOf(part, more) == OpsOf(part, front);
      }
    }
  }

  lemma LogGrows(s: State, a: Action)
    ensures s.log <= Next(s, a).log
    ensures RejectedIn(s.log) ==> RejectedIn(Next(s, a).log)
    ensures a.Part? && a.part < |s.tasks| && RejectedIn(PartMoves(s, a.part, a.op).log) ==> RejectedIn(Next(s, a).log)
  {
    if i :| 0 <= i < |s.log| && s.log[i].PutAnswered? && !s.log[i].ok {
      assert Next(s, a).log[i] == s.log[i];
    }
    if a.Part? && a.part < |s.tasks| {
      var moved := PartMoves(s, a.part, a.op);
      if i :| 0 <= i < |moved.log| && moved.log[i].PutAnswered? && !moved.log[i].ok {
        assert Next(s, a).log[i] == moved.log[i];
      }
    }
  }

  lemma OneMove(s: State, part: nat, a: Action)
    requires PhaseSound(s) && s.status != Canceled && part < |s.tasks| && s.tasks[part] != Queued && a != Cancel
    ensures var t := Next(s, a);
            && t.status != Canceled && part < |t.tasks| && t.tasks[part] != Queued
            && t.tasks[part] ==
               if a.Part? && a.part == part then TaskStep(s.tasks[part], a.op, false, true) else s.tasks[part]
  {
  }

  /**
   In any run, whatever the other parts and `upload()` do meanwhile: without a cancel a part that has got
   a slot and then fails in these ways before it succeeds is completed exactly if it fails at most nine
   times.
   */
  lemma {:induction false} SurvivesNineFailures(actions: seq<Action>, more: seq<Action>, part: nat,
                                                failures: seq<Failure>)
    requires Retries(Run(actions), more, part, failures)
    ensures var t := Run(actions + more);
            part < |t.tasks| && (t.tasks[part] == Completed <==> |failures| <= 9)
  {
    RunKeepsInvariant(actions);
    RunConcat(INITIAL, actions, more);
    OthersDoNotMatter(Run(actions), part, more);
    CompletesFrom(1, failures);
  }

  /** From here on, a part that has just got a slot fails like this and then succeeds, and nothing is canceled. */
  predicate Retries(s: State, more: seq<Action>, part: nat, failures: seq<Failure>) {
    && s.status != Canceled && part < |s.tasks| && s.tasks[part] == Hashing(1)
    && Cancel !in more && OpsOf(part, more) == Attempts(failures)
  }

  lemma RejectedAttemptMeetsRejection(k: nat)
    ensures MeetsRejection(Hashing(k), FailedAttempt(PartIsRejected))
  {
    MeetsRejectionConcat(Hashing(k), [HashSettles(true), StartPut], [PutLoads(false), Guard, Consume, Wake]);
    assert FailedAttempt(PartIsRejected) == [HashSettles(true), StartPut] + [PutLoads(false), Guard, Consume, Wake];
  }

  lemma {:induction false} AttemptsMeetRejection(k: nat, failures: seq<Failure>)
    requires 1 <= k && k + |failures| <= MAX_UPLOAD_ATTEMPTS && PartIsRejected in failures
    ensures MeetsRejection(Hashing(k), Attempts(failures))
    decreases |failures|
  {
    MeetsRejectionConcat(Hashing(k), FailedAttempt(failures[0]), Attempts(failures[1..]));
    if failures[0] == PartIsRejected {
      RejectedAttemptMeetsRejection(k);
    } else {
      FailedAttemptMoves(k, failures[0]);
      AttemptsMeetRejection(k + 1, failures[1..]);
    }
  }

  /** In no run is an upload complete of which a part was ever rejected. */
  lemma {:induction false} RejectedIsNotComplete(actions: seq<Action>)
    requires RejectedIn(Run(actions).log)
    ensures Run(actions).status != Complete
  {
    RunKeepsInvariant(actions);
  }

  lemma {:induction false} RejectionIsKept(s: State, more: seq<Action>)
    requires RejectedIn(s.log)
    ensures RejectedIn(RunFrom(s, more).log)
    decreases |more|
  {
    if more != [] {
      RejectionIsKept(s, more[..|more| - 1]);
      LogGrows(RunFrom(s, more[..|more| - 1]), more[|more| - 1]);
    }
  }

  /** A retry makes a rejected part good, but the upload never becomes complete, whatever happens later. */
  lemma {:induction false} RetriedRejectionIsFatal(actions: seq<Action>, more: seq<Action>, part: nat,
                                                   failures: seq<Failure>, later: seq<Action>)
    requires Retries(Run(actions), more, part, failures) && |failures| <= 9 && PartIsRejected in failures
    ensures part < |Run(actions + more).tasks| && Run(actions + more).tasks[part] == Completed
    ensures Run(actions + more + later).status != Complete
  {
    SurvivesNineFailures(actions, more, part, failures);
    RunKeepsInvariant(actions);
    RunConcat(INITIAL, actions, more);
    OthersDoNotMatter(Run(actions), part, more);
    AttemptsMeetRejection(1, failures);
    RunConcat(INITIAL, actions + more, later);
    RejectionIsKept(Run(actions + more), later);
    RejectedIsNotComplete(actions + more + later);
  }

  /** A run that consists of one part's operations. */
  function Parts(part: nat, ops: seq<TaskOp>): seq<Action> {
    seq(|ops|, i requires 0 <= i < |ops| => Part(part, ops[i]))
  }

  lemma PartKeepsMain(s: State, part: nat, op: TaskOp)
    ensures var t := Next(s, Part(part, op)); t.main == s.main && |t.tasks| == |s.tasks|
  {
  }

  lemma {:induction false} PartsMoveOnePart(s: State, part: nat, ops: seq<TaskOp>)
    ensures OpsOf(part, Parts(part, ops)) == ops && Cancel !in Parts(part, ops)
    ensures var t := RunFrom(s, Parts(part, ops)); t.main == s.main && |t.tasks| == |s.tasks|
    decreases |ops|
  {
    if ops != [] {
      var front := ops[..|ops| - 1];
      var op := ops[|ops| - 1];
      PartsMoveOnePart(s, part, front);
      assert Parts(part, ops) == Parts(part, front) + [Part(part, op)];
      assert Parts(part, ops)[..|ops| - 1] == Parts(part, front);
      PartKeepsMain(RunFrom(s, Parts(part, front)), part, op);
      assert front + [op] == ops;
    }
  }

  const TO_PLAN: seq<Action> := [StartUpload(1), InitSettles(true, 1), InitContinues]
  const TO_FIRST_ATTEMPT: seq<Action> := [InitGuarded, Spawn, Part(0, TryStart)]

  /** The shortest way to the first part's first attempt. */
  const START := TO_PLAN + TO_FIRST_ATTEMPT

  const PLANNED :=
    State(Uploading, Some(1), InitGuard, [], 0, [Entered(New, Initiating), Entered(Initiating, Uploading)])

  lemma PlanIsReached()
    ensures Run(TO_PLAN) == PLANNED
  {
    RunThree(INITIAL, StartUpload(1), InitSettles(true, 1), InitContinues);
  }

  lemma FirstPartStarts()
    ensures var s := Run(START); s.status == Uploading && s.main == AwaitingParts && s.tasks == [Hashing(1)]
  {
    PlanIsReached();
    RunConcat(INITIAL, TO_PLAN, TO_FIRST_ATTEMPT);
    RunThree(PLANNED, InitGuarded, Spawn, Part(0, TryStart));
  }

  lemma RejectedOnceThenCompleted()
    ensures var s := Run(START + Parts(0, Attempts([PartIsRejected])));
            s.main == AwaitingParts && s.tasks == [Completed] && RejectedIn(s.log) && s.status != Canceled
  {
    var ops := Attempts([PartIsRejected]);
    FirstPartStarts();
    RunKeepsInvariant(START);
    PartsMoveOnePart(Run(START), 0, ops);
    RunConcat(INITIAL, START, Parts(0, ops));
    OthersDoNotMatter(Run(START), 0, Parts(0, ops));
    AttemptsMeetRejection(1, [PartIsRejected]);
    CompletesFrom(1, [PartIsRejected]);
  }

  /** It happens: the only part of an upload is rejected, retried and completed, and the upload then fails. */
  lemma RejectionCanBeRetriedInVain()
    ensures exists actions :: var s := Run(actions);
              && s.main == AwaitingParts && s.tasks == [Completed]
              && Next(s, Join).main == Returned(false) && Next(s, Join).status == Errored
  {
    var actions := START + Parts(0, Attempts([PartIsRejected]));
    var s := Run(actions);
    RejectedOnceThenCompleted();
    RunKeepsInvariant(actions);
    PartsAreCompleted(s);
    assert Next(s, Join) == JoinStep(s) == Fail(s);
  }

  // ----- the throttler -----

  /** What the throttler sees of a task. */
  function AsCaller(task: Task): T.Caller {
    match task
    case Queued => T.Waiting
    case Completed => T.Left(true)
    case Failed => T.Left(false)
    case _ => T.Inside
  }

  function AsCallers(tasks: seq<Task>): seq<T.Caller> {
    seq(|tasks|, i requires 0 <= i < |tasks| => AsCaller(tasks[i]))
  }

  function AsThrottle(s: State): T.State { T.State(s.ongoing, AsCallers(s.tasks)) }

  /** The throttler's view of a step. */
  function AsThrottleAction(s: State, a: Action): Option<T.Action> {
    match a
    case Spawn => if s.main == Spawning && s.planned.Some? then Some(T.Arrive(s.planned.value)) else None
    case Part(part, op) =>
      if part >= |s.tasks| then None
      else if s.tasks[part] == Queued && op.TryStart? then Some(T.TryStart(part))
      else if s.tasks[part].Unwinding? && op.Unwind? then Some(T.Finish(part, s.tasks[part].ok))
      else None
    case _ => None
  }

  /** Every step of the upload is a step of the throttler or invisible to it. */
  lemma StepsThrottle(s: State, a: Action)
    requires Invariant(s)
    ensures AsThrottle(Next(s, a)) ==
            match AsThrottleAction(s, a)
            case None => AsThrottle(s)
            case Some(action) => T.Next(MAX_PARALLEL_REQUESTS, AsThrottle(s), action)
  {
    match a
    case Part(part, op) =>
      if part < |s.tasks| {
        PartStepsThrottle(s, part, op);
      }
    case Spawn =>
      if s.main == Spawning && s.planned.Some? {
        assert AsCallers(Next(s, a).tasks) == AsCallers(s.tasks) + seq(s.planned.value, _ => T.Waiting);
      }
    case Cancel =>
      assert AsCallers(AbortRequests(s.tasks)) == AsCallers(s.tasks);
    case _ =>
  }

  lemma PartStepsThrottle(s: State, part: nat, op: TaskOp)
    requires part < |s.tasks|
    ensures AsThrottle(PartStep(s, part, op)) ==
            match AsThrottleAction(s, Part(part, op))
            case None => AsThrottle(s)
            case Some(action) => T.Next(MAX_PARALLEL_REQUESTS, AsThrottle(s), action)
  {
  }

  /** At most three parts are being uploaded at any time, and the counter says how many. */
  lemma {:induction false} AtMostThreeAtOnce(actions: seq<Action>)
    ensures T.Invariant(MAX_PARALLEL_REQUESTS, AsThrottle(Run(actions)))
    decreases |actions|
  {
    if actions != [] {
      var before, a := Run(actions[..|actions| - 1]), actions[|actions| - 1];
      AtMostThreeAtOnce(actions[..|actions| - 1]);
      RunKeepsInvariant(actions[..|actions| - 1]);
      StepsThrottle(before, a);
      if AsThrottleAction(before, a).Some? {
        T.NextKeepsInvariant(MAX_PARALLEL_REQUESTS, AsThrottle(before), AsThrottleAction(before, a).value);
      }
    }
  }
}
