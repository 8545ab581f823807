/**
 Asynchronous package submission. Polls enqueue tasks, the broker may deliver a task any number of times
 to any number of workers, a worker takes a row lock or skips, and its outcome commits atomically or is
 rolled back.

 The class methods are what one poll and one worker do to a row object; the actions interleave them.
 */
module Submission {
  import opened Prelude

  /** Microseconds. */
  type Time = int

  type VersionId = nat

  const TASK_TTL: Time := 60 * 5 * 1000000
  const CLEANUP_TTL: Time := 60 * 60 * 24 * 1000000

  datatype Status = Pending | Finished

  datatype Row = Row(
    status: Status,
    scheduled: Option<Time>,
    polled: Time,
    finished: Option<Time>,
    formErrors: Option<string>,
    taskError: Option<string>,
    created: Option<VersionId>)
  {
    /** Exactly one of created version, form errors and task error is set. */
    predicate OneOutcome() {
      (if created.Some? then 1 else 0) + (if formErrors.Some? then 1 else 0) + (if taskError.Some? then 1 else 0) == 1
    }

    predicate NoOutcome() {
      created.None? && formErrors.None? && taskError.None? && finished.None?
    }
  }

  /** `has_expired` */
  predicate HasExpired(timestamp: Option<Time>, now: Time, ttl: Time) {
    timestamp.None? || now - timestamp.value > ttl
  }

  predicate MaySchedule(row: Row, now: Time) {
    row.status == Pending && HasExpired(row.scheduled, now, TASK_TTL)
  }

  /** A row object after a poll that read the clock three times. */
  function AfterPoll(row: Row, now1: Time, now2: Time, now3: Time): Row {
    row.(polled := now1, scheduled := if MaySchedule(row, now2) then Some(now3) else row.scheduled)
  }

  /** What processing an upload comes to. */
  datatype Attempt =
    | Raises(trace: string) | Invalid(errors: string) | SaveInvalid(errors: string) | Saves(version: VersionId)

  /** The row as a worker writes it. */
  function Outcome(row: Row, attempt: Attempt, now: Time): Row {
    var done := row.(status := Finished, finished := Some(now));
    match attempt
    case Raises(trace) => done.(taskError := Some(trace))
    case Invalid(errors) => done.(formErrors := Some(errors))
    case SaveInvalid(errors) => done.(formErrors := Some(errors))
    case Saves(version) => done.(created := Some(version))
  }

  /**
   The error fields and the version say what processing came to: a trace is a task error, what the form or
   its save rejects is a form error.
   */
  predicate Records(row: Row, attempt: Attempt) {
    && row.taskError == (if attempt.Raises? then Some(attempt.trace) else None)
    && row.formErrors == (if attempt.Invalid? || attempt.SaveInvalid? then Some(attempt.errors) else None)
    && row.created == (if attempt.Saves? then Some(attempt.version) else None)
  }

  class AsyncPackageSubmission {
    var status: Status
    var datetimeScheduled: Option<Time>
    var datetimePolled: Time
    var datetimeFinished: Option<Time>
    var formErrors: Option<string>
    var taskError: Option<string>
    var createdVersion: Option<VersionId>

    ghost function View(): Row
      reads this
    {
      Row(status, datetimeScheduled, datetimePolled, datetimeFinished, formErrors, taskError, createdVersion)
    }

    constructor (now: Time)
      ensures View() == Row(Pending, None, now, None, None, None, None)
    {
      status, datetimeScheduled, datetimePolled, datetimeFinished := Pending, None, now, None;
      formErrors, taskError, createdVersion := None, None, None;
    }

    /** A poll reads the clock three times and writes only its two timestamps. */
    method ScheduleIfAppropriate(now1: Time, now2: Time, now3: Time) returns (enqueued: bool)
      modifies `datetimeScheduled, `datetimePolled
      ensures enqueued <==>
              && status == Pending
              && (old(datetimeScheduled).None? || now2 - old(datetimeScheduled).value > TASK_TTL)
      ensures datetimePolled == now1
      ensures datetimeScheduled == if enqueued then Some(now3) else old(datetimeScheduled)
      ensures View() == AfterPoll(old(View()), now1, now2, now3)
    {
      datetimePolled := now1;
      enqueued := false;
      if status == Pending && HasExpired(datetimeScheduled, now2, TASK_TTL) {
        enqueued := true;
        datetimeScheduled := Some(now3);
      }
    }

    /** The try, except and finally of the locked part; an exception that is re-raised undoes the transaction. */
    method ProcessLocked(attempt: Attempt, alwaysRaise: bool, now: Time) returns (escapes: bool)
      requires View().status == Pending && View().NoOutcome()
      modifies this
      ensures escapes <==> attempt.Raises? && alwaysRaise
      ensures status == Finished && datetimeFinished == Some(now)
      ensures !escapes ==> Records(View(), attempt) && View().OneOutcome()
      ensures datetimeScheduled == old(datetimeScheduled) && datetimePolled == old(datetimePolled)
      ensures !escapes ==> View() == Outcome(old(View()), attempt, now)
    {
      escapes := false;
      match attempt {
        case Raises(trace) =>
          if alwaysRaise {
            escapes := true;
          } else {
            taskError := Some(trace);
          }
        case Invalid(errors) => formErrors := Some(errors);
        case SaveInvalid(errors) => formErrors := Some(errors);
        case Saves(version) => createdVersion := Some(version);
      }
      status := Finished;
      datetimeFinished := Some(now);
    }
  }

  // ----- the system -----

  type SubmissionId = nat
  type WorkerId = nat
  type PollerId = nat

  /** A worker's open transaction: the row it locked, as it was then, and what processing came to. */
  datatype Work = Work(submission: SubmissionId, row: Row, attempt: Option<Attempt>)

  /** A poll's copy of the row, read before its transaction. */
  datatype Copy = Copy(submission: SubmissionId, row: Row)

  /** What has happened, in commit order. */
  datatype Event =
    | Enqueued(submission: SubmissionId, at: Time)
    | Committed(submission: SubmissionId, row: Row)

  datatype State = State(
    rows: map<SubmissionId, Row>,
    used: set<SubmissionId>,
    workers: map<WorkerId, Work>,
    polls: map<PollerId, Copy>,
    usedVersions: set<VersionId>,
    log: seq<Event>)
  {
    predicate Locked(submission: SubmissionId) {
      exists w :: w in workers && workers[w].submission == submission
    }
  }

  const INITIAL := State(map[], {}, map[], map[], {}, [])

  datatype Action =
    | Submit(submission: SubmissionId, now: Time)
    | Load(poller: PollerId, submission: SubmissionId)
    | Poll(poller: PollerId, now1: Time, now2: Time, now3: Time)
    | Deliver(worker: WorkerId, submission: SubmissionId)
    | Process(worker: WorkerId, attempt: Attempt)
    | Commit(worker: WorkerId, now: Time)
    | Rollback(worker: WorkerId)
    | Cleanup(submission: SubmissionId, now: Time)
    | DeleteVersion(version: VersionId)

  /** Old enough to be cleaned up. */
  predicate IsStale(row: Row, now: Time) {
    (row.finished.Some? && row.finished.value < now - CLEANUP_TTL) || row.polled < now - CLEANUP_TTL
  }

  /**
   One step. Writing or deleting a locked row has to wait, and saving the fields of a deleted row fails, so
   those do nothing; a delivery skips a row that is locked, finished or gone.
   */
  function Next(s: State, a: Action): State {
    match a
    case Submit(id, now) =>
      if id in s.used then s
      else s.(rows := s.rows[id := Row(Pending, None, now, None, None, None, None)], used := s.used + {id})
    case Load(p, id) =>
      if id !in s.rows then s else s.(polls := s.polls[p := Copy(id, s.rows[id])])
    case Poll(p, now1, now2, now3) =>
      if p !in s.polls then s
      else
        var id, copy := s.polls[p].submission, s.polls[p].row;
        var saved := AfterPoll(copy, now1, now2, now3);
        if id !in s.rows || s.Locked(id) then s
        else
          s.(rows := s.rows[id := s.rows[id].(polled := saved.polled, scheduled := saved.scheduled)],
             polls := s.polls - {p},
             log := if MaySchedule(copy, now2) then s.log + [Enqueued(id, now3)] else s.log)
    case Deliver(w, id) =>
      if w in s.workers || id !in s.rows || s.Locked(id) || s.rows[id].status != Pending then s
      else s.(workers := s.workers[w := Work(id, s.rows[id], None)])
    case Process(w, attempt) =>
      if w !in s.workers || s.workers[w].attempt.Some? then s
      else if attempt.Saves? && attempt.version in s.usedVersions then s
      else s.(workers := s.workers[w := s.workers[w].(attempt := Some(attempt))],
              usedVersions := s.usedVersions + (if attempt.Saves? then {attempt.version} else {}))
    case Commit(w, now) =>
      if w !in s.workers || s.workers[w].attempt.None? then s
      else
        var work := s.workers[w];
        var row := Outcome(work.row, work.attempt.value, now);
        s.(rows := s.rows[work.submission := row], workers := s.workers - {w},
           log := s.log + [Committed(work.submission, row)])
    case Rollback(w) => s.(workers := s.workers - {w})
    case Cleanup(id, now) =>
      if id !in s.rows || s.Locked(id) || !IsStale(s.rows[id], now) then s else s.(rows := s.rows - {id})
    case DeleteVersion(v) =>
      s.(rows := map id | id in s.rows ::
           if s.rows[id].created == Some(v) then s.rows[id].(created := None) else s.rows[id])
  }

  function Run(s: State, actions: seq<Action>): State
    decreases |actions|
  {
    if actions == [] then s else Next(Run(s, actions[..|actions| - 1]), actions[|actions| - 1])
  }

  // ----- what every step keeps -----

  function Commits(log: seq<Event>, id: SubmissionId): nat {
    if log == [] then 0
    else Commits(log[..|log| - 1], id) +
         (if log[|log| - 1].Committed? && log[|log| - 1].submission == id then 1 else 0)
  }

  /** A lock has one holder, and a locked row is still the pending row that its holder read. */
  ghost predicate LocksHold(s: State) {
    && (forall w, x :: w in s.workers && x in s.workers && w != x ==>
          s.workers[w].submission != s.workers[x].submission)
    && (forall w :: w in s.workers ==>
          && s.workers[w].submission in s.rows
          && s.rows[s.workers[w].submission] == s.workers[w].row
          && s.workers[w].row.status == Pending)
  }

  /** Pending rows have no outcome and have never been committed. */
  ghost predicate PendingIsFresh(s: State) {
    && (forall id :: id in s.rows ==> id in s.used)
    && (forall id :: id in s.rows && s.rows[id].status == Pending ==> s.rows[id].NoOutcome() && Commits(s.log, id) == 0)
    && (forall id :: id !in s.used ==> Commits(s.log, id) == 0)
  }

  /** Nothing is committed twice, and every commit finished its row with one outcome. */
  ghost predicate CommitsAreSound(log: seq<Event>) {
    && (forall id :: Commits(log, id) <= 1)
    && (forall i :: 0 <= i < |log| && log[i].Committed? ==> log[i].row.status == Finished && log[i].row.OneOutcome())
  }

  ghost predicate Invariant(s: State) {
    LocksHold(s) && PendingIsFresh(s) && CommitsAreSound(s.log)
  }

  lemma CommitsSnoc(log: seq<Event>, e: Event)
    ensures forall id ::
              Commits(log + [e], id) == Commits(log, id) + (if e.Committed? && e.submission == id then 1 else 0)
  {
  }

  lemma LocksAreKept(s: State, a: Action)
    requires Invariant(s)
    ensures LocksHold(Next(s, a))
  {
  }

  lemma LogIsKept(s: State, a: Action)
    requires Invariant(s)
    ensures CommitsAreSound(Next(s, a).log)
  {
    match a
    case Poll(p, now1, now2, now3) =>
      if p in s.polls {
        CommitsSnoc(s.log, Enqueued(s.polls[p].submission, now3));
      }
    case Commit(w, now) => CommitIsSound(s, w, now);
    case _ => assert Next(s, a).log == s.log;
  }

  lemma CommitIsSound(s: State, w: WorkerId, now: Time)
    requires Invariant(s)
    ensures CommitsAreSound(Next(s, Commit(w, now)).log)
  {
    if w in s.workers && s.workers[w].attempt.Some? {
      var work := s.workers[w];
      var row := Outcome(work.row, work.attempt.value, now);
      assert work.row.NoOutcome() && Commits(s.log, work.submission) == 0;
      assert row.OneOutcome();
      CommitsSnoc(s.log, Committed(work.submission, row));
    }
  }

  lemma PendingIsKept(s: State, a: Action)
    requires Invariant(s)
    ensures PendingIsFresh(Next(s, a))
  {
  }

  lemma NextKeepsInvariant(s: State, a: Action)
    requires Invariant(s)
    ensures Invariant(Next(s, a))
  {
    LocksAreKept(s, a);
    PendingIsKept(s, a);
    LogIsKept(s, a);
  }

  lemma {:induction false} RunKeepsInvariant(actions: seq<Action>)
    ensures Invariant(Run(INITIAL, actions))
    decreases |actions|
  {
    if actions != [] {
      RunKeepsInvariant(actions[..|actions| - 1]);
      NextKeepsInvariant(Run(INITIAL, actions[..|actions| - 1]), actions[|actions| - 1]);
    }
  }

  // ----- what follows for every interleaving -----

  /** The versions that committed submissions of this id have created. */
  function VersionsOf(log: seq<Event>, id: SubmissionId): seq<VersionId> {
    if log == [] then []
    else
      var e := log[|log| - 1];
      VersionsOf(log[..|log| - 1], id) +
      (if e.Committed? && e.submission == id && e.row.created.Some? then [e.row.created.value] else [])
  }

  lemma {:induction false} VersionsWithinCommits(log: seq<Event>, id: SubmissionId)
    ensures |VersionsOf(log, id)| <= Commits(log, id)
  {
    if log != [] {
      VersionsWithinCommits(log[..|log| - 1], id);
    }
  }

  /** Under every interleaving a submission finishes at most once and creates at most one version. */
  lemma {:induction false} AtMostOneVersion(actions: seq<Action>, id: SubmissionId)
    ensures Commits(Run(INITIAL, actions).log, id) <= 1
    ensures |VersionsOf(Run(INITIAL, actions).log, id)| <= 1
  {
    RunKeepsInvariant(actions);
    VersionsWithinCommits(Run(INITIAL, actions).log, id);
  }

  /** The version that an open transaction has saved, and the one that a commit has created. */
  function Saved(work: Work): Option<VersionId> {
    if work.attempt.Some? && work.attempt.value.Saves? then Some(work.attempt.value.version) else None
  }

  function Created(e: Event): Option<VersionId> {
    if e.Committed? then e.row.created else None
  }

  /** Every version belongs to one open transaction or one commit. */
  ghost predicate VersionsHaveOneOwner(s: State) {
    && (forall w :: w in s.workers && Saved(s.workers[w]).Some? ==> Saved(s.workers[w]).value in s.usedVersions)
    && (forall w, x :: w in s.workers && x in s.workers && w != x && Saved(s.workers[w]).Some? ==>
          Saved(s.workers[w]) != Saved(s.workers[x]))
    && (forall i :: 0 <= i < |s.log| && Created(s.log[i]).Some? ==> Created(s.log[i]).value in s.usedVersions)
    && (forall i, w :: 0 <= i < |s.log| && w in s.workers && Created(s.log[i]).Some? ==>
          Created(s.log[i]) != Saved(s.workers[w]))
    && (forall i, j :: 0 <= i < j < |s.log| && Created(s.log[i]).Some? ==> Created(s.log[i]) != Created(s.log[j]))
  }

  lemma CommitKeepsOwners(s: State, a: Action)
    requires Invariant(s) && VersionsHaveOneOwner(s) && a.Commit?
    ensures VersionsHaveOneOwner(Next(s, a))
  {
    if a.worker in s.workers && s.workers[a.worker].attempt.Some? {
      var work := s.workers[a.worker];
      var e := Committed(work.submission, Outcome(work.row, work.attempt.value, a.now));
      assert work.row.NoOutcome();
      assert Created(e) == Saved(work);
      assert Next(s, a).log == s.log + [e];
    }
  }

  lemma ProcessKeepsOwners(s: State, a: Action)
    requires VersionsHaveOneOwner(s) && a.Process?
    ensures VersionsHaveOneOwner(Next(s, a))
  {
    assert Next(s, a).log == s.log;
  }

  lemma PollKeepsOwners(s: State, a: Action)
    requires VersionsHaveOneOwner(s) && a.Poll?
    ensures VersionsHaveOneOwner(Next(s, a))
  {
    assert Next(s, a).workers == s.workers && Next(s, a).usedVersions == s.usedVersions;
    if Next(s, a).log != s.log {
      assert Next(s, a).log == s.log + [Enqueued(s.polls[a.poller].submission, a.now3)];
    }
  }

  lemma DeliverKeepsOwners(s: State, a: Action)
    requires VersionsHaveOneOwner(s) && (a.Deliver? || a.Rollback?)
    ensures VersionsHaveOneOwner(Next(s, a))
  {
    assert Next(s, a).log == s.log && Next(s, a).usedVersions == s.usedVersions;
  }

  lemma RowStepKeepsOwners(s: State, a: Action)
    requires VersionsHaveOneOwner(s) && (a.Submit? || a.Load? || a.Cleanup? || a.DeleteVersion?)
    ensures VersionsHaveOneOwner(Next(s, a))
  {
    var t := Next(s, a);
    assert t.log == s.log && t.workers == s.workers && t.usedVersions == s.usedVersions;
  }

  lemma {:induction false} OwnersAreKept(actions: seq<Action>)
    ensures VersionsHaveOneOwner(Run(INITIAL, actions))
    decreases |actions|
  {
    if actions != [] {
      var s, a := Run(INITIAL, actions[..|actions| - 1]), actions[|actions| - 1];
      OwnersAreKept(actions[..|actions| - 1]);
      RunKeepsInvariant(actions[..|actions| - 1]);
      match a
      case Commit(_, _) => CommitKeepsOwners(s, a);
      case Process(_, _) => ProcessKeepsOwners(s, a);
      case Poll(_, _, _, _) => PollKeepsOwners(s, a);
      case Deliver(_, _) => DeliverKeepsOwners(s, a);
      case Rollback(_) => DeliverKeepsOwners(s, a);
      case _ => RowStepKeepsOwners(s, a);
    }
  }

  /** No two commits, of whatever submissions, create the same version, rolled back attempts included. */
  lemma {:induction false} CommitsCreateDistinctVersions(actions: seq<Action>, i: nat, j: nat)
    requires i < j < |Run(INITIAL, actions).log|
    requires Run(INITIAL, actions).log[i].Committed? && Run(INITIAL, actions).log[j].Committed?
    requires Run(INITIAL, actions).log[i].row.created.Some?
    ensures Run(INITIAL, actions).log[i].row.created != Run(INITIAL, actions).log[j].row.created
  {
    OwnersAreKept(actions);
    var log := Run(INITIAL, actions).log;
    assert Created(log[i]) != Created(log[j]);
  }

  /** Whatever commits is finished, with exactly one outcome. */
  lemma {:induction false} CommitsHaveOneOutcome(actions: seq<Action>, i: nat)
    requires i < |Run(INITIAL, actions).log| && Run(INITIAL, actions).log[i].Committed?
    ensures var row := Run(INITIAL, actions).log[i].row; row.status == Finished && row.OneOutcome()
  {
    RunKeepsInvariant(actions);
  }

  /** A finished row stays finished with its outcome until cleaned up; only its version may be deleted. */
  lemma {:induction false} FinishedIsNeverLeft(actions: seq<Action>, a: Action, id: SubmissionId)
    requires var s := Run(INITIAL, actions); id in s.rows && s.rows[id].status == Finished
    ensures var s, t := Run(INITIAL, actions), Next(Run(INITIAL, actions), a);
            && (id !in t.rows ==> a.Cleanup? && a.submission == id)
            && (id in t.rows ==>
                  && t.rows[id].status == Finished && t.rows[id].finished == s.rows[id].finished
                  && t.rows[id].formErrors == s.rows[id].formErrors && t.rows[id].taskError == s.rows[id].taskError
                  && (t.rows[id].created == s.rows[id].created ||
                      (t.rows[id].created.None? && a.DeleteVersion? && s.rows[id].created == Some(a.version))))
  {
    RunKeepsInvariant(actions);
  }

  /** A commit overwrites no other write: the row it replaces is still the one the worker read. */
  lemma {:induction false} CommitLosesNoPoll(actions: seq<Action>, w: WorkerId, now: Time)
    requires var s := Run(INITIAL, actions); w in s.workers && s.workers[w].attempt.Some?
    ensures var s, t := Run(INITIAL, actions), Next(Run(INITIAL, actions), Commit(w, now));
            var id := s.workers[w].submission;
            && id in s.rows && s.rows[id].status == Pending
            && t.rows[id].polled == s.rows[id].polled && t.rows[id].scheduled == s.rows[id].scheduled
            && t.rows[id].status == Finished && t.rows[id].OneOutcome()
            && forall other :: other in s.rows && other != id ==> other in t.rows && t.rows[other] == s.rows[other]
  {
    RunKeepsInvariant(actions);
  }

  /**
   A worker writes to its own transaction until it commits, so a crash leaves the rows alone; what is to
   be shown is that the lock it held was the only one, and that the submission can be taken again.
   */
  lemma RollbackLeavesNoTrace(s: State, w: WorkerId)
    requires w in s.workers && Invariant(s)
    ensures var t := Next(s, Rollback(w));
            && t.rows == s.rows && t.log == s.log
            && !t.Locked(s.workers[w].submission)
            && Next(t, Deliver(w, s.workers[w].submission)).Locked(s.workers[w].submission)
  {
    var id := s.workers[w].submission;
    var t := Next(s, Rollback(w));
    assert w !in t.workers;
    var u := Next(t, Deliver(w, id));
    assert w in u.workers && u.workers[w].submission == id;
  }

  /**
   In every run the commit of a worker records what its processing came to in the right field, dates it,
   and keeps the poll's timestamps.
   */
  lemma {:induction false} CommitRecordsAttempt(actions: seq<Action>, w: WorkerId, now: Time)
    requires var s := Run(INITIAL, actions); w in s.workers && s.workers[w].attempt.Some?
    ensures var s, t := Run(INITIAL, actions), Next(Run(INITIAL, actions), Commit(w, now));
            var id, attempt := s.workers[w].submission, s.workers[w].attempt.value;
            && id in s.rows && id in t.rows
            && t.rows[id].status == Finished && t.rows[id].finished == Some(now)
            && t.rows[id].taskError == (if attempt.Raises? then Some(attempt.trace) else None)
            && t.rows[id].formErrors ==
               (if attempt.Invalid? || attempt.SaveInvalid? then Some(attempt.errors) else None)
            && t.rows[id].created == (if attempt.Saves? then Some(attempt.version) else None)
            && t.rows[id].scheduled == s.rows[id].scheduled && t.rows[id].polled == s.rows[id].polled
            && t.log == s.log + [Committed(id, t.rows[id])] && w !in t.workers
  {
    RunKeepsInvariant(actions);
  }

  /**
   A pending, unlocked submission is finished by any idle worker, with what its processing came to in the
   fields that a pending row of any run has empty.
   */
  lemma DeliveryFinishes(s: State, w: WorkerId, id: SubmissionId, attempt: Attempt, now: Time)
    requires w !in s.workers && id in s.rows && s.rows[id].status == Pending && !s.Locked(id)
    requires attempt.Saves? ==> attempt.version !in s.usedVersions
    ensures var t := Next(Next(Next(s, Deliver(w, id)), Process(w, attempt)), Commit(w, now));
            && id in t.rows && t.rows == s.rows[id := t.rows[id]] && t.workers == s.workers
            && t.rows[id].status == Finished && t.rows[id].finished == Some(now)
            && t.rows[id].scheduled == s.rows[id].scheduled && t.rows[id].polled == s.rows[id].polled
            && (s.rows[id].NoOutcome() ==> Records(t.rows[id], attempt))
            && t.log == s.log + [Committed(id, t.rows[id])]
  {
    var locked := Next(s, Deliver(w, id));
    var processed := Next(locked, Process(w, attempt));
    assert processed.workers[w] == Work(id, s.rows[id], Some(attempt));
    assert processed.workers - {w} == s.workers;
  }

  /** A new submission is pending, polled now, not scheduled and without an outcome; an id is used once. */
  lemma {:induction false} SubmitCreatesPending(actions: seq<Action>, id: SubmissionId, now: Time)
    ensures var s, t := Run(INITIAL, actions), Next(Run(INITIAL, actions), Submit(id, now));
            && (id in s.used ==> t == s)
            && (id !in s.used ==>
                  && id !in s.rows && t.rows.Keys == s.rows.Keys + {id}
                  && (forall other :: other in s.rows ==> t.rows[other] == s.rows[other])
                  && t.rows[id].status == Pending && t.rows[id].polled == now && t.rows[id].scheduled.None?
                  && t.rows[id].NoOutcome() && !t.Locked(id))
  {
    RunKeepsInvariant(actions);
  }

  /**
   A row disappears exactly when a cleanup finds it unlocked and finished more than a day ago or not polled
   for a day; nothing else removes it.
   */
  lemma RemovedIffStale(s: State, a: Action, id: SubmissionId)
    requires Invariant(s) && id in s.rows
    ensures id !in Next(s, a).rows <==>
            && a.Cleanup? && a.submission == id && !s.Locked(id)
            && ((s.rows[id].finished.Some? && a.now - s.rows[id].finished.value > 24 * 60 * 60 * 1000000)
                || a.now - s.rows[id].polled > 24 * 60 * 60 * 1000000)
  {
  }

  /** Deleting a version clears it from every row and touches nothing else. */
  lemma DeletedVersionIsForgotten(s: State, v: VersionId)
    ensures var t := Next(s, DeleteVersion(v));
            && t.rows.Keys == s.rows.Keys && t.log == s.log && t.workers == s.workers && t.polls == s.polls
            && forall id :: id in s.rows ==>
                 && t.rows[id].created != Some(v)
                 && (s.rows[id].created != Some(v) ==> t.rows[id] == s.rows[id])
                 && t.rows[id].(created := None) == s.rows[id].(created := None)
  {
  }
}
