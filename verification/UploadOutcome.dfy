/**
 How `upload()` ends: what its result says about the status, what makes it fail, and how often the finish
 request is sent.
 */
module UploadOutcome {
  import opened Prelude
  import opened FileUpload

  // ----- the result and the status -----

  /** What `upload()` returns and what it leaves the status at. */
  ghost predicate ReturnTellsStatus(s: State) {
    && (s.main == Returned(true) ==> s.status == Complete || s.status == Canceled)
    && (s.main == Returned(false) ==> s.status == Errored || s.status == Canceled)
    && (s.status == Complete ==> s.main == Returned(true))
  }

  /** In every run an id is returned only for a complete upload, and null only with an error, unless canceled. */
  lemma {:induction false} ResultMatchesStatus(actions: seq<Action>)
    ensures ReturnTellsStatus(Run(actions))
    decreases |actions|
  {
    if actions != [] {
      ResultMatchesStatus(actions[..|actions| - 1]);
      RunKeepsInvariant(actions[..|actions| - 1]);
      StepMatchesStatus(Run(actions[..|actions| - 1]), actions[|actions| - 1]);
    }
  }

  lemma StepMatchesStatus(s: State, a: Action)
    requires Invariant(s) && ReturnTellsStatus(s)
    ensures ReturnTellsStatus(Next(s, a))
  {
    if a.Part? && a.part < |s.tasks| && s.main.Returned? && s.status == Complete {
      assert s.tasks[a.part] == Completed;
    }
  }

  // ----- beginning -----

  /** A call starts an upload only if it is new, and otherwise does nothing; an empty file is an error. */
  lemma StartsIff(s: State, fileSize: int)
    ensures var t := Next(s, StartUpload(fileSize)); var idle := s.main == Idle && s.status == New;
            && (!idle ==> t == s)
            && (idle && fileSize > 0 ==> t.main == Initiate && t.status == Initiating)
            && (idle && fileSize <= 0 ==> t.main == Returned(false) && t.status == Errored)
  {
  }

  /** Where no part has been started yet. */
  predicate BeforeParts(main: Main) {
    main == Idle || main == Initiate || main.InitReturned? || main == InitGuard
  }

  /** Canceled before its parts were started an upload never starts one; it stays unstarted or returns null. */
  ghost predicate NeverStarts(s: State, first: Main) {
    && s.status == Canceled && s.tasks == []
    && (BeforeParts(s.main) || s.main == Returned(false))
    && (first == Idle ==> s.main == Idle)
  }

  lemma StepNeverStarts(s: State, a: Action, first: Main)
    requires NeverStarts(s, first)
    ensures NeverStarts(Next(s, a), first)
  {
  }

  lemma {:induction false} CanceledEarlyStartsNoPart(actions: seq<Action>, more: seq<Action>)
    requires Run(actions).status == Canceled && BeforeParts(Run(actions).main)
    ensures NeverStarts(RunFrom(Run(actions), more), Run(actions).main)
    decreases |more|
  {
    if more == [] {
      RunKeepsInvariant(actions);
    } else {
      CanceledEarlyStartsNoPart(actions, more[..|more| - 1]);
      StepNeverStarts(RunFrom(Run(actions), more[..|more| - 1]), more[|more| - 1], Run(actions).main);
    }
  }

  /** An empty file is refused with an error before anything is asked of the server. */
  lemma {:induction false} EmptyFileSendsNothing(actions: seq<Action>)
    requires forall a | a in actions :: a.StartUpload? ==> a.fileSize <= 0
    ensures NothingSent(Run(actions))
    decreases |actions|
  {
    if actions != [] {
      EmptyFileSendsNothing(actions[..|actions| - 1]);
      StepSendsNothing(Run(actions[..|actions| - 1]), actions[|actions| - 1]);
    }
  }

  /** No plan, no parts, and nothing has happened but an error or a cancel. */
  ghost predicate NothingSent(s: State) {
    && s.planned.None? && s.tasks == []
    && (s.main == Idle || s.main == Returned(false))
    && forall i :: 0 <= i < |s.log| ==> s.log[i].Entered? && (s.log[i].to == Errored || s.log[i].to == Canceled)
  }

  lemma StepSendsNothing(s: State, a: Action)
    requires NothingSent(s) && (a.StartUpload? ==> a.fileSize <= 0)
    ensures NothingSent(Next(s, a))
  {
  }

  /**
   A new upload of a file with content asks for a plan; with a good answer and no cancel it gets to its
   parts, with a bad answer or after a cancel it returns null.
   */
  lemma PlanArrivesIff(s: State, ok: bool, count: nat)
    requires s.main == Initiate
    ensures var t := Next(s, InitSettles(ok, count));
            && (t.main == InitReturned(count) <==> ok && s.status != Canceled)
            && (t.main == Returned(false) <==> !ok || s.status == Canceled)
            && (t.main == InitReturned(count) ==> t.status == s.status)
            && (t.main == Returned(false) ==> t.status == if s.status == Canceled then Canceled else Errored)
  {
  }

  /** A plan that is known is the one that some good answer brought. */
  lemma {:induction false} PlanWasAnswered(actions: seq<Action>)
    ensures var s := Run(actions);
            && (s.planned.Some? ==> InitSettles(true, s.planned.value) in actions)
            && (s.main.InitReturned? ==> InitSettles(true, s.main.count) in actions)
    decreases |actions|
  {
    if actions != [] {
      PlanWasAnswered(actions[..|actions| - 1]);
      assert actions == actions[..|actions| - 1] + [actions[|actions| - 1]];
    }
  }

  // ----- waiting for the parts -----

  /**
   In every run: with a failed part `upload()` returns null; while none has failed and some are not
   completed it waits; and when all are completed it sends the finish request or, after a cancel or a
   rejected part, returns null.
   */
  lemma {:induction false} PartsDecide(actions: seq<Action>)
    requires Run(actions).main == AwaitingParts
    ensures var s, t := Run(actions), Next(Run(actions), Join);
            && (t.main == Returned(false) <==>
                  || Failed in s.tasks
                  || (AllCompleted(s.tasks) && (|s.tasks| == 0 || CanceledIn(s.log) || RejectedIn(s.log))))
            && (t.main == Finishing(1) <==>
                  AllCompleted(s.tasks) && |s.tasks| > 0 && !CanceledIn(s.log) && !RejectedIn(s.log))
            && (t.main == AwaitingParts <==> Failed !in s.tasks && !AllCompleted(s.tasks))
            && (t.main == AwaitingParts ==> t == s)
            && (t.main == Returned(false) ==> t.status == if s.status == Canceled then Canceled else Errored)
  {
    var s := Run(actions);
    RunKeepsInvariant(actions);
    if AllCompleted(s.tasks) {
      PartsAreCompleted(s);
    }
  }

  // ----- the finish request -----

  predicate FinishMoves(a: Action) { a.FinishSettles? || a.FinishWakes? || a.Conclude? }

  /** The finishing actions among these. */
  function FinishOps(actions: seq<Action>): seq<Action>
    decreases |actions|
  {
    if actions == [] then []
    else
      var a := actions[|actions| - 1];
      FinishOps(actions[..|actions| - 1]) + (if FinishMoves(a) then [a] else [])
  }

  /** So many finish requests that fail, and one that succeeds. */
  function FinishAttempts(failures: nat): seq<Action> {
    if failures == 0 then [FinishSettles(true), Conclude]
    else [FinishSettles(false), FinishWakes] + FinishAttempts(failures - 1)
  }

  predicate InFinish(main: Main) {
    main.Finishing? || main.FinishSleeping? || main == FinishReturned || main.Returned?
  }

  /** How these actions move `upload()` while it finishes. */
  function FinishRun(main: Main, ops: seq<Action>): Main
    decreases |ops|
  {
    if ops == [] then main
    else FinishRun(Next(INITIAL.(main := main), ops[0]).main, ops[1..])
  }

  lemma {:induction false} FinishRunSnoc(main: Main, ops: seq<Action>, a: Action)
    ensures FinishRun(main, ops + [a]) == Next(INITIAL.(main := FinishRun(main, ops)), a).main
    decreases |ops|
  {
    if ops == [] {
      assert ops + [a] == [a];
    } else {
      assert (ops + [a])[1..] == ops[1..] + [a];
      FinishRunSnoc(Next(INITIAL.(main := main), ops[0]).main, ops[1..], a);
    }
  }

  /** Finishing is moved by its own actions only, and these do not look at anything else. */
  lemma FinishStep(s: State, a: Action)
    requires PhaseSound(s) && InFinish(s.main)
    ensures InFinish(Next(s, a).main)
    ensures Next(s, a).main == if FinishMoves(a) then Next(INITIAL.(main := s.main), a).main else s.main
  {
  }

  lemma {:induction false} OnlyFinishMoves(s: State, more: seq<Action>)
    requires Invariant(s) && InFinish(s.main)
    ensures var t := RunFrom(s, more);
            Invariant(t) && InFinish(t.main) && t.main == FinishRun(s.main, FinishOps(more))
    decreases |more|
  {
    if more != [] {
      var front, a := more[..|more| - 1], more[|more| - 1];
      OnlyFinishMoves(s, front);
      NextKeepsInvariant(RunFrom(s, front), a);
      FinishStep(RunFrom(s, front), a);
      if FinishMoves(a) {
        FinishRunSnoc(s.main, FinishOps(front), a);
      } else {
        assert FinishOps(more) == FinishOps(front);
      }
    }
  }

  lemma {:induction false} ReturnedStays(ok: bool, ops: seq<Action>)
    requires forall a | a in ops :: FinishMoves(a)
    ensures FinishRun(Returned(ok), ops) == Returned(ok)
    decreases |ops|
  {
    if ops != [] {
      assert ops[0] in ops;
      ReturnedStays(ok, ops[1..]);
    }
  }

  lemma {:induction false} AttemptsFinish(failures: nat)
    ensures forall a | a in FinishAttempts(failures) :: FinishMoves(a)
  {
    if failures > 0 {
      AttemptsFinish(failures - 1);
    }
  }

  lemma {:induction false} FinishesFrom(k: nat, failures: nat)
    requires 1 <= k <= MAX_UPLOAD_ATTEMPTS
    ensures FinishRun(Finishing(k), FinishAttempts(failures)) == Returned(k + failures <= MAX_UPLOAD_ATTEMPTS)
    decreases failures
  {
    var ops := FinishAttempts(failures);
    if failures == 0 {
      assert ops[1..] == [Conclude] && ops[1..][1..] == [];
      assert FinishRun(FinishReturned, [Conclude]) == Returned(true);
    } else {
      var rest := FinishAttempts(failures - 1);
      assert ops[1..] == [FinishWakes] + rest && ops[1..][1..] == rest;
      if k < MAX_UPLOAD_ATTEMPTS {
        FinishesFrom(k + 1, failures - 1);
        assert FinishRun(FinishSleeping(k), ops[1..]) == FinishRun(Finishing(k + 1), rest);
      } else {
        AttemptsFinish(failures - 1);
        ReturnedStays(false, rest);
        assert FinishRun(FinishSleeping(k), ops[1..]) == FinishRun(Returned(false), rest);
      }
    }
  }

  /**
   In any run, whatever happens meanwhile, a cancel included: once the finish request has been sent, and
   it fails a number of times before it succeeds, `upload()` returns its id exactly if it fails at most
   nine times, and null otherwise.
   */
  lemma {:induction false} FinishSurvivesNineFailures(actions: seq<Action>, more: seq<Action>, failures: nat)
    requires Run(actions).main == Finishing(1)
    requires FinishOps(more) == FinishAttempts(failures)
    ensures Run(actions + more).main == Returned(failures <= 9)
  {
    RunKeepsInvariant(actions);
    RunConcat(INITIAL, actions, more);
    OnlyFinishMoves(Run(actions), more);
    FinishesFrom(1, failures);
  }

  /** How many finish requests were sent. */
  function Finishes(log: seq<Event>): nat
    decreases |log|
  {
    if log == [] then 0 else Finishes(log[..|log| - 1]) + (if log[|log| - 1].FinishSent? then 1 else 0)
  }

  lemma FinishesSnoc(log: seq<Event>, e: Event)
    ensures Finishes(log + [e]) == Finishes(log) + (if e.FinishSent? then 1 else 0)
  {
    assert (log + [e])[..|log|] == log;
  }

  /** Requests so far, by where `upload()` is. */
  ghost predicate FinishesCounted(s: State) {
    match s.main
    case Finishing(attempt) => 1 <= attempt <= MAX_UPLOAD_ATTEMPTS && Finishes(s.log) == attempt
    case FinishSleeping(attempt) => 1 <= attempt <= MAX_UPLOAD_ATTEMPTS && Finishes(s.log) == attempt
    case FinishReturned => 1 <= Finishes(s.log) <= MAX_UPLOAD_ATTEMPTS
    case Returned(_) => Finishes(s.log) <= MAX_UPLOAD_ATTEMPTS
    case _ => Finishes(s.log) == 0
  }

  lemma EnterSendsNoFinish(s: State, status: Status)
    ensures Finishes(Enter(s, status).log) == Finishes(s.log)
  {
    FinishesSnoc(s.log, Entered(s.status, status));
  }

  lemma PartSendsNoFinish(s: State, part: nat, op: TaskOp)
    requires part < |s.tasks|
    ensures Finishes(PartStep(s, part, op).log) == Finishes(s.log) && PartStep(s, part, op).main == s.main
  {
    var events := TaskEvents(part, s.tasks[part], op, s.status == Canceled);
    if events != [] {
      assert events == [events[0]];
      FinishesSnoc(s.log, events[0]);
    } else {
      assert s.log + events == s.log;
    }
    EnterSendsNoFinish(PartMoves(s, part, op), Errored);
  }

  /** Before the parts are awaited a step only enters a status. */
  lemma InitOnlyEnters(s: State, a: Action) returns (status: Status)
    requires a.StartUpload? || a.InitSettles? || a.InitContinues? || a.InitGuarded? || a.Spawn?
    ensures var t := Next(s, a);
            && (t.log == s.log || t.log == Enter(s, status).log)
            && (t.main == s.main || (!InFinish(s.main) && (t.main.Returned? || !InFinish(t.main))))
  {
    match a
    case StartUpload(fileSize) => status := if fileSize <= 0 then Errored else Initiating;
    case InitContinues => status := Uploading;
    case _ => status := Errored;
  }

  lemma InitCountsFinishes(s: State, a: Action)
    requires FinishesCounted(s)
    requires a.StartUpload? || a.InitSettles? || a.InitContinues? || a.InitGuarded? || a.Spawn?
    ensures FinishesCounted(Next(s, a))
  {
    var t := Next(s, a);
    var status := InitOnlyEnters(s, a);
    EnterSendsNoFinish(s, status);
    StillCounted(s, t);
  }

  lemma StillCounted(s: State, t: State)
    requires FinishesCounted(s) && Finishes(t.log) == Finishes(s.log)
    requires t.main == s.main || (!InFinish(s.main) && (t.main.Returned? || !InFinish(t.main)))
    ensures FinishesCounted(t)
  {
  }

  lemma JoinCountsFinishes(s: State)
    requires FinishesCounted(s) && s.main == AwaitingParts
    ensures FinishesCounted(JoinStep(s))
  {
    EnterSendsNoFinish(s, Errored);
    FinishesSnoc(s.log, FinishSent(1, AllParts(|s.tasks|)));
    assert JoinStep(s) == Fail(s) || JoinStep(s) == s || JoinStep(s) == SendFinish(s, 1);
  }

  lemma FinishWakeCountsFinishes(s: State)
    requires FinishesCounted(s) && s.main.FinishSleeping?
    ensures FinishesCounted(Next(s, FinishWakes))
  {
    EnterSendsNoFinish(s, Errored);
    FinishesSnoc(s.log, FinishSent(s.main.attempt + 1, AllParts(|s.tasks|)));
  }

  lemma CancelCountsFinishes(s: State)
    requires FinishesCounted(s)
    ensures FinishesCounted(CancelStep(s))
  {
    EnterSendsNoFinish(s, Canceled);
    FinishesSnoc(Enter(s, Canceled).log, AbortSent);
  }

  lemma StepCountsFinishes(s: State, a: Action)
    requires FinishesCounted(s)
    ensures FinishesCounted(Next(s, a))
  {
    match a
    case Join =>
      if s.main == AwaitingParts {
        JoinCountsFinishes(s);
      }
    case FinishSettles(_) =>
    case FinishWakes =>
      if s.main.FinishSleeping? {
        FinishWakeCountsFinishes(s);
      }
    case Conclude => EnterSendsNoFinish(s, Complete);
    case Cancel => CancelCountsFinishes(s);
    case Part(part, op) =>
      if part < |s.tasks| {
        PartSendsNoFinish(s, part, op);
      }
    case _ => InitCountsFinishes(s, a);
  }

  /** The finish request is sent at most ten times. */
  lemma {:induction false} AtMostTenFinishes(actions: seq<Action>)
    ensures FinishesCounted(Run(actions)) && Finishes(Run(actions).log) <= MAX_UPLOAD_ATTEMPTS
    decreases |actions|
  {
    if actions != [] {
      AtMostTenFinishes(actions[..|actions| - 1]);
      StepCountsFinishes(Run(actions[..|actions| - 1]), actions[|actions| - 1]);
    }
  }
}
