/**
 What a cancel does: when the server is told, how the parts wind down, and whether `upload()` still
 returns. A request that is aborted never settles, so its task keeps its place in the throttler and its
 promise stays pending.
 */
module CanceledUpload {
  import opened FileUpload
  import T = Throttle

  // ----- telling the server -----

  lemma StepTellsServer(s: State, a: Action)
    ensures AbortSent in Next(s, a).log <==>
            AbortSent in s.log || (a == Cancel && s.planned.Some? && s.status != Complete)
  {
    LogGrows(s, a);
  }

  /** A cancel of an upload that is known and not complete. */
  predicate TellsServer(actions: seq<Action>, n: nat)
    requires n < |actions|
  {
    actions[n] == Cancel && Run(actions[..n]).planned.Some? && Run(actions[..n]).status != Complete
  }

  ghost predicate ServerIsTold(actions: seq<Action>) {
    exists n :: 0 <= n < |actions| && TellsServer(actions, n)
  }

  lemma ToldSnoc(actions: seq<Action>)
    requires actions != []
    ensures var front := actions[..|actions| - 1];
            ServerIsTold(actions) <==> ServerIsTold(front) || TellsServer(actions, |front|)
  {
    var front := actions[..|actions| - 1];
    forall n | 0 <= n < |front|
      ensures TellsServer(front, n) <==> TellsServer(actions, n)
    {
      assert front[..n] == actions[..n];
    }
    if n :| 0 <= n < |front| && TellsServer(front, n) {
      assert TellsServer(actions, n);
    }
  }

  /**
   In every run: the server is asked to abort the upload exactly if it was canceled at some time when the
   upload was known and not complete.
   */
  lemma {:induction false} ServerIsToldIff(actions: seq<Action>)
    ensures AbortSent in Run(actions).log <==> exists n :: 0 <= n < |actions| && TellsServer(actions, n)
    decreases |actions|
  {
    if actions != [] {
      ServerIsToldIff(actions[..|actions| - 1]);
      StepTellsServer(Run(actions[..|actions| - 1]), actions[|actions| - 1]);
      ToldSnoc(actions);
    }
    assert ServerIsTold(actions) <==> exists n :: 0 <= n < |actions| && TellsServer(actions, n);
  }

  // ----- the parts wind down -----

  /** Places in front of an answer, and those that only an answer leads to. */
  predicate Begins(task: Task) {
    || task.Queued? || task.Hashing? || task.Hashed? || task.Settled? || task.Answered? || task.RetryDone?
    || task == Unwinding(true) || task.Hung?
  }

  /** How a part may move on once the upload is canceled. */
  predicate WindsDown(before: Task, after: Task) {
    && (Begins(after) ==> after == before)
    && !after.Putting?
    && (after == Completed ==> before == Completed || before == Unwinding(true))
    && (after.AttemptDone? ==> after == before || before == Answered(after.attempt, true))
  }

  ghost predicate NoneInFlight(s: State) {
    s.status == Canceled ==> forall i :: 0 <= i < |s.tasks| ==> !s.tasks[i].Putting?
  }

  lemma {:induction false} CanceledHasNoneInFlight(actions: seq<Action>)
    ensures NoneInFlight(Run(actions))
    decreases |actions|
  {
    if actions != [] {
      CanceledHasNoneInFlight(actions[..|actions| - 1]);
      StepHasNoneInFlight(Run(actions[..|actions| - 1]), actions[|actions| - 1]);
    }
  }

  lemma StepHasNoneInFlight(s: State, a: Action)
    requires NoneInFlight(s)
    ensures NoneInFlight(Next(s, a))
  {
  }

  lemma CanceledTaskWindsDown(task: Task, op: TaskOp, room: bool, first: Task)
    requires !first.Putting? && WindsDown(first, task)
    ensures WindsDown(first, TaskStep(task, op, true, room))
  {
  }

  lemma StepWindsDown(s: State, a: Action, i: nat, first: Task)
    requires s.status == Canceled && PhaseSound(s)
    requires i < |s.tasks| && !first.Putting? && WindsDown(first, s.tasks[i])
    ensures var t := Next(s, a); t.status == Canceled && i < |t.tasks| && WindsDown(first, t.tasks[i])
  {
    if a.Part? && a.part == i {
      CanceledTaskWindsDown(s.tasks[i], a.op, T.Room(MAX_PARALLEL_REQUESTS, s.ongoing), first);
    }
  }

  /**
   After a cancel no part begins an attempt, sends a request or takes note of an answer, and only a part
   whose retry loop had already succeeded is still completed.
   */
  lemma {:induction false} CanceledPartsWindDown(actions: seq<Action>, more: seq<Action>, i: nat)
    requires Run(actions).status == Canceled && i < |Run(actions).tasks|
    ensures var t := RunFrom(Run(actions), more);
            && t.status == Canceled && i < |t.tasks| && WindsDown(Run(actions).tasks[i], t.tasks[i])
    decreases |more|
  {
    CanceledHasNoneInFlight(actions);
    if more != [] {
      var front := more[..|more| - 1];
      CanceledPartsWindDown(actions, front, i);
      RunConcat(INITIAL, actions, front);
      RunKeepsInvariant(actions + front);
      StepWindsDown(RunFrom(Run(actions), front), more[|more| - 1], i, Run(actions).tasks[i]);
    }
  }

  // ----- whether `upload()` returns -----

  /** Canceled while `upload()` waits for the parts. */
  ghost predicate CanceledWhileWaiting(s: State) {
    && s.status == Canceled && s.main == AwaitingParts
    && Invariant(s) && T.Invariant(MAX_PARALLEL_REQUESTS, AsThrottle(s))
  }

  function Count(tasks: seq<Task>, task: Task): nat {
    if tasks == [] then 0 else (if tasks[0] == task then 1 else 0) + Count(tasks[1..], task)
  }

  /** A task that can no longer fail. */
  predicate CannotFail(task: Task) {
    task == Hung || task == Completed || task == Unwinding(true)
  }

  /**
   Some request was aborted, no part has failed, and either aborted requests hold all places in the
   throttler or no other part can fail any more.
   */
  ghost predicate Stuck(s: State) {
    && Hung in s.tasks && Failed !in s.tasks
    && (Count(s.tasks, Hung) == MAX_PARALLEL_REQUESTS || forall task | task in s.tasks :: CannotFail(task))
  }

  // ----- counting -----

  lemma {:induction false} CountUpdate(tasks: seq<Task>, i: nat, after: Task, task: Task)
    requires i < |tasks|
    ensures Count(tasks[i := after], task) ==
            Count(tasks, task) - (if tasks[i] == task then 1 else 0) + (if after == task then 1 else 0)
  {
    if i == 0 {
      assert tasks[i := after][1..] == tasks[1..];
    } else {
      CountUpdate(tasks[1..], i - 1, after, task);
      assert tasks[i := after][1..] == tasks[1..][i - 1 := after];
    }
  }

  /** Hung tasks are inside the throttler; if they are as many as are inside, nobody else is. */
  lemma {:induction false} HungAreInside(tasks: seq<Task>)
    ensures Count(tasks, Hung) <= T.InsideCount(AsCallers(tasks))
    ensures Count(tasks, Hung) == T.InsideCount(AsCallers(tasks)) <==>
            forall i :: 0 <= i < |tasks| && AsCaller(tasks[i]) == T.Inside ==> tasks[i] == Hung
  {
    if tasks != [] {
      HungAreInside(tasks[1..]);
      assert AsCallers(tasks)[1..] == AsCallers(tasks[1..]);
      assert forall i :: 1 <= i < |tasks| ==> tasks[i] == tasks[1..][i - 1];
    }
  }

  // ----- moving one task -----

  lemma CanceledMove(s: State, i: nat, op: TaskOp)
    requires CanceledWhileWaiting(s) && i < |s.tasks|
    ensures var t := Next(s, Part(i, op));
            && CanceledWhileWaiting(t)
            && t.tasks == s.tasks[i := TaskStep(s.tasks[i], op, true, T.Room(MAX_PARALLEL_REQUESTS, s.ongoing))]
  {
    NextKeepsInvariant(s, Part(i, op));
    StepsThrottle(s, Part(i, op));
    var action := AsThrottleAction(s, Part(i, op));
    if action.Some? {
      T.NextKeepsInvariant(MAX_PARALLEL_REQUESTS, AsThrottle(s), action.value);
    }
  }

  lemma RunCons(s: State, a: Action, more: seq<Action>)
    ensures RunFrom(s, [a] + more) == RunFrom(Next(s, a), more)
  {
    RunConcat(s, [a], more);
    assert [a][..0] == [] && RunFrom(s, [a]) == Next(s, a);
  }

  // ----- a stuck upload -----

  /** In a stuck upload a part can only be completed that was about to be. */
  lemma StuckTask(s: State, i: nat, op: TaskOp)
    requires CanceledWhileWaiting(s) && Stuck(s) && i < |s.tasks|
    ensures var after := TaskStep(s.tasks[i], op, true, T.Room(MAX_PARALLEL_REQUESTS, s.ongoing));
            after == s.tasks[i] || (s.tasks[i] == Unwinding(true) && after == Completed)
  {
    HungAreInside(s.tasks);
    assert s.tasks[i] in s.tasks;
  }

  lemma PartKeepsStuck(s: State, i: nat, op: TaskOp)
    requires CanceledWhileWaiting(s) && Stuck(s) && i < |s.tasks|
    ensures CanceledWhileWaiting(Next(s, Part(i, op))) && Stuck(Next(s, Part(i, op)))
  {
    var t := Next(s, Part(i, op));
    CanceledMove(s, i, op);
    StuckTask(s, i, op);
    CountUpdate(s.tasks, i, t.tasks[i], Hung);
    var h :| 0 <= h < |s.tasks| && s.tasks[h] == Hung;
    assert t.tasks[h] == Hung;
    forall task | task in t.tasks
      ensures task in s.tasks || task == Completed
    {
      var k :| 0 <= k < |t.tasks| && t.tasks[k] == task;
      assert k != i ==> s.tasks[k] == task;
    }
  }

  lemma CancelKeepsStuck(s: State)
    requires CanceledWhileWaiting(s) && Stuck(s)
    ensures CanceledWhileWaiting(Next(s, Cancel)) && Stuck(Next(s, Cancel))
  {
    NextKeepsInvariant(s, Cancel);
    StepsThrottle(s, Cancel);
    HungAreInside(s.tasks);
    forall i | 0 <= i < |s.tasks|
      ensures !s.tasks[i].Putting?
    {
      assert s.tasks[i] in s.tasks;
    }
    assert AbortRequests(s.tasks) == s.tasks;
  }

  lemma StepKeepsStuck(s: State, a: Action)
    requires CanceledWhileWaiting(s) && Stuck(s)
    ensures CanceledWhileWaiting(Next(s, a)) && Stuck(Next(s, a))
  {
    match a
    case Cancel => CancelKeepsStuck(s);
    case Part(i, op) =>
      if i < |s.tasks| {
        PartKeepsStuck(s, i, op);
      }
    case Join =>
      assert forall i :: 0 <= i < |s.tasks| ==> s.tasks[i] in s.tasks;
    case _ =>
  }

  lemma {:induction false} StaysStuck(s: State, more: seq<Action>)
    requires CanceledWhileWaiting(s) && Stuck(s)
    ensures RunFrom(s, more).main == AwaitingParts
    ensures CanceledWhileWaiting(RunFrom(s, more)) && Stuck(RunFrom(s, more))
    decreases |more|
  {
    if more != [] {
      StaysStuck(s, more[..|more| - 1]);
      StepKeepsStuck(RunFrom(s, more[..|more| - 1]), more[|more| - 1]);
    }
  }

  // ----- an upload that can return -----

  /** The step that brings a canceled task nearer to failing. */
  function Towards(task: Task): TaskOp {
    match task
    case Hashing(_) => HashSettles(false)
    case Hashed(_) => StartPut
    case Putting(_) => PutBreaks
    case Settled(_, _) => Guard
    case Answered(_, _) => Consume
    case AttemptDone(_) => GuardAttempt
    case RetryDone => GuardRetry
    case Sleeping(_) => Wake
    case _ => Unwind
  }

  /** How many such steps there are at most. */
  function Distance(task: Task): nat {
    match task
    case Unwinding(_) => 1
    case Sleeping(_) => 2
    case RetryDone => 2
    case AttemptDone(_) => 3
    case Answered(_, _) => 4
    case _ => 5
  }

  predicate CanFail(task: Task) { AsCaller(task) == T.Inside && !CannotFail(task) }

  lemma TowardsFails(task: Task, room: bool)
    requires CanFail(task)
    ensures var after := TaskStep(task, Towards(task), true, room);
            after == Failed || (CanFail(after) && Distance(after) < Distance(task))
  {
  }

  lemma {:induction false} FailAndReturn(s: State, i: nat) returns (more: seq<Action>)
    requires CanceledWhileWaiting(s) && i < |s.tasks| && (s.tasks[i] == Failed || CanFail(s.tasks[i]))
    ensures RunFrom(s, more).main.Returned?
    decreases if s.tasks[i] == Failed then 0 else Distance(s.tasks[i])
  {
    if s.tasks[i] == Failed {
      more := [Join];
      RunCons(s, Join, []);
    } else {
      var a := Part(i, Towards(s.tasks[i]));
      CanceledMove(s, i, a.op);
      TowardsFails(s.tasks[i], T.Room(MAX_PARALLEL_REQUESTS, s.ongoing));
      more := FailAndReturn(Next(s, a), i);
      RunCons(s, a, more);
      more := [a] + more;
    }
  }

  lemma UnwindKeepsNotStuck(s: State, i: nat)
    requires CanceledWhileWaiting(s) && !Stuck(s) && i < |s.tasks| && s.tasks[i] == Unwinding(true)
    ensures var t := Next(s, Part(i, Unwind));
            && CanceledWhileWaiting(t) && !Stuck(t)
            && Count(t.tasks, Unwinding(true)) < Count(s.tasks, Unwinding(true))
  {
    var t := Next(s, Part(i, Unwind));
    CanceledMove(s, i, Unwind);
    CountUpdate(s.tasks, i, Completed, Hung);
    CountUpdate(s.tasks, i, Completed, Unwinding(true));
    forall task | task in s.tasks
      ensures task in t.tasks || task == Unwinding(true)
    {
      var k :| 0 <= k < |s.tasks| && s.tasks[k] == task;
      assert k != i ==> t.tasks[k] == task;
    }
    if h :| 0 <= h < |t.tasks| && t.tasks[h] == Hung {
      assert s.tasks[h] == Hung;
    }
  }

  /** With only aborted, completed and queued parts a queued one gets a place, unless the upload is stuck. */
  lemma QueuedCanStart(s: State, i: nat)
    requires CanceledWhileWaiting(s) && !Stuck(s) && i < |s.tasks| && s.tasks[i] == Queued
    requires Failed !in s.tasks
    requires forall k :: 0 <= k < |s.tasks| && AsCaller(s.tasks[k]) == T.Inside ==> s.tasks[k] == Hung
    ensures T.Room(MAX_PARALLEL_REQUESTS, s.ongoing)
  {
    HungAreInside(s.tasks);
    if Hung !in s.tasks {
      T.NoneInside(AsCallers(s.tasks));
    }
  }

  lemma OnlyHungInside(tasks: seq<Task>)
    requires forall k :: 0 <= k < |tasks| ==>
               tasks[k] != Failed && !CanFail(tasks[k]) && tasks[k] != Unwinding(true)
    ensures Failed !in tasks
    ensures forall k :: 0 <= k < |tasks| && AsCaller(tasks[k]) == T.Inside ==> tasks[k] == Hung
    ensures forall k :: 0 <= k < |tasks| ==> tasks[k] in {Hung, Completed, Queued}
  {
  }

  lemma {:induction false} CanReturn(s: State) returns (more: seq<Action>)
    requires CanceledWhileWaiting(s) && !Stuck(s)
    ensures RunFrom(s, more).main.Returned?
    decreases Count(s.tasks, Unwinding(true))
  {
    if i :| 0 <= i < |s.tasks| && (s.tasks[i] == Failed || CanFail(s.tasks[i])) {
      more := FailAndReturn(s, i);
    } else if i :| 0 <= i < |s.tasks| && s.tasks[i] == Unwinding(true) {
      var a := Part(i, Unwind);
      UnwindKeepsNotStuck(s, i);
      more := CanReturn(Next(s, a));
      RunCons(s, a, more);
      more := [a] + more;
    } else if i :| 0 <= i < |s.tasks| && s.tasks[i] == Queued {
      OnlyHungInside(s.tasks);
      QueuedCanStart(s, i);
      CanceledMove(s, i, TryStart);
      more := FailAndReturn(Next(s, Part(i, TryStart)), i);
      RunCons(s, Part(i, TryStart), more);
      more := [Part(i, TryStart)] + more;
    } else {
      OnlyHungInside(s.tasks);
      NobodyHung(s);
      more := [Join];
      RunCons(s, Join, []);
    }
  }

  lemma NobodyHung(s: State)
    requires !Stuck(s) && forall i :: 0 <= i < |s.tasks| ==> s.tasks[i] in {Hung, Completed}
    ensures AllCompleted(s.tasks)
  {
    forall i | 0 <= i < |s.tasks|
      ensures s.tasks[i] == Completed
    {
      assert s.tasks[i] in s.tasks;
    }
  }

  /**
   In every run: an upload that is canceled while it waits for its parts can still return exactly if it
   is not stuck.
   */
  lemma {:induction false} ReturnsIffNotStuck(actions: seq<Action>)
    requires Run(actions).status == Canceled && Run(actions).main == AwaitingParts
    ensures (exists more :: RunFrom(Run(actions), more).main.Returned?) <==> !Stuck(Run(actions))
  {
    var s := Run(actions);
    RunKeepsInvariant(actions);
    AtMostThreeAtOnce(actions);
    if !Stuck(s) {
      var more := CanReturn(s);
      assert RunFrom(s, more).main.Returned?;
    } else {
      forall more
        ensures !RunFrom(s, more).main.Returned?
      {
        StaysStuck(s, more);
      }
    }
  }

  lemma CancelWhilePutting(s: State)
    requires s.status == Uploading && s.main == AwaitingParts && s.tasks == [Hashing(1)]
    ensures var t := RunFrom(s, [Part(0, HashSettles(true)), Part(0, StartPut), Cancel]);
            t.status == Canceled && t.main == AwaitingParts && t.tasks == [Hung]
  {
    var hashed := Next(s, Part(0, HashSettles(true)));
    assert hashed.status == Uploading && hashed.main == AwaitingParts && hashed.tasks == [Hashed(1)];
    var putting := Next(hashed, Part(0, StartPut));
    assert putting.status == Uploading && putting.main == AwaitingParts && putting.tasks == [Putting(1)];
    RunThree(s, Part(0, HashSettles(true)), Part(0, StartPut), Cancel);
  }

  /** It happens: the cancel aborts the only part's request. */
  lemma CancelCanHang()
    ensures exists actions ::
              Run(actions).status == Canceled && Run(actions).main == AwaitingParts && Stuck(Run(actions))
  {
    var last := [Part(0, HashSettles(true)), Part(0, StartPut), Cancel];
    FirstPartStarts();
    RunConcat(INITIAL, START, last);
    CancelWhilePutting(Run(START));
    assert Stuck(Run(START + last));
  }
}
