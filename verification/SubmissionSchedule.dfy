/**
 When tasks of a submission are enqueued, over every interleaving of polls, workers and cleanups: how far
 apart they are, that none follows the commit, and exactly which polls break either.
 */
module SubmissionSchedule {
  import opened Prelude
  import opened Submission

  // ----- how often tasks are scheduled -----

  /** A poll of this submission that gets to write: it holds a copy, and the row is there and not locked. */
  predicate Polls(s: State, a: Action, id: SubmissionId) {
    && a.Poll? && a.poller in s.polls && s.polls[a.poller].submission == id
    && id in s.rows && !s.Locked(id)
  }

  /** What a poll that gets to write writes: its two timestamps, from its own copy of the schedule. */
  lemma PollWritesTimestamps(s: State, a: Action, id: SubmissionId)
    requires Polls(s, a, id)
    ensures var t, copy := Next(s, a), s.polls[a.poller].row;
            && t.rows.Keys == s.rows.Keys
            && (forall other :: other in s.rows && other != id ==> t.rows[other] == s.rows[other])
            && t.rows[id].polled == a.now1
            && (t.log == s.log ==> t.rows[id].scheduled == copy.scheduled)
            && (t.log != s.log ==> t.rows[id].scheduled == Some(a.now3) && t.log == s.log + [Enqueued(id, a.now3)])
            && t.rows[id].(polled := 0, scheduled := None) == s.rows[id].(polled := 0, scheduled := None)
            && (t.log != s.log <==>
                  && copy.status == Pending
                  && (copy.scheduled.None? || a.now2 - copy.scheduled.value > TASK_TTL))
  {
    assert |s.log + [Enqueued(id, a.now3)]| == |s.log| + 1;
  }

  /** The poll's copy was read after the row was last scheduled, and the clock does not run backwards. */
  predicate IsCurrent(s: State, a: Action, id: SubmissionId) {
    Polls(s, a, id) ==> s.polls[a.poller].row.scheduled == s.rows[id].scheduled && a.now2 <= a.now3
  }

  ghost predicate PollsAreCurrent(actions: seq<Action>, id: SubmissionId) {
    forall k :: 0 <= k < |actions| ==> IsCurrent(Run(INITIAL, actions[..k]), actions[k], id)
  }

  /** When tasks of a submission were enqueued. */
  function ScheduleTimes(log: seq<Event>, id: SubmissionId): seq<Time>
    decreases |log|
  {
    if log == [] then []
    else
      var e := log[|log| - 1];
      ScheduleTimes(log[..|log| - 1], id) + (if e.Enqueued? && e.submission == id then [e.at] else [])
  }

  /** Any two of these, in order, are more than the task time-to-live apart. */
  ghost predicate Apart(times: seq<Time>) {
    forall i, j :: 0 <= i < j < |times| ==> times[j] - times[i] > TASK_TTL
  }

  /** These are apart, the row shows the last of them, and no copy of it shows a later one. */
  ghost predicate RecordsTimes(s: State, id: SubmissionId, times: seq<Time>) {
    && Apart(times)
    && (id in s.rows ==> s.rows[id].scheduled == (if times == [] then None else Some(times[|times| - 1])))
    && (id !in s.used ==> times == [])
    && forall p :: p in s.polls && s.polls[p].submission == id && s.polls[p].row.scheduled.Some? ==>
         times != [] && s.polls[p].row.scheduled.value <= times[|times| - 1]
  }

  ghost predicate ScheduleIsRecorded(s: State, id: SubmissionId) {
    RecordsTimes(s, id, ScheduleTimes(s.log, id))
  }

  lemma ScheduleTimesSnoc(log: seq<Event>, e: Event, id: SubmissionId)
    ensures ScheduleTimes(log + [e], id) ==
            ScheduleTimes(log, id) + (if e.Enqueued? && e.submission == id then [e.at] else [])
  {
    assert (log + [e])[..|log|] == log;
  }

  /** The task that a step enqueues, if it does. */
  function NewTimes(s: State, a: Action, id: SubmissionId): seq<Time> {
    if Polls(s, a, id) && MaySchedule(s.polls[a.poller].row, a.now2) then [a.now3] else []
  }

  /** What a step logs. */
  function NewEvents(s: State, a: Action): seq<Event> {
    if a.Poll? && a.poller in s.polls && NewTimes(s, a, s.polls[a.poller].submission) != [] then
      [Enqueued(s.polls[a.poller].submission, a.now3)]
    else if a.Commit? && a.worker in s.workers && s.workers[a.worker].attempt.Some? then
      var work := s.workers[a.worker];
      [Committed(work.submission, Outcome(work.row, work.attempt.value, a.now))]
    else []
  }

  lemma LogAfterStep(s: State, a: Action)
    ensures Next(s, a).log == s.log + NewEvents(s, a)
  {
  }

  lemma TimesAfterEvents(log: seq<Event>, events: seq<Event>, id: SubmissionId)
    requires |events| <= 1
    ensures ScheduleTimes(log + events, id) ==
            ScheduleTimes(log, id)
            + (if events != [] && events[0].Enqueued? && events[0].submission == id then [events[0].at] else [])
  {
    if events == [] {
      assert log + events == log;
    } else {
      assert events == [events[0]];
      ScheduleTimesSnoc(log, events[0], id);
    }
  }

  lemma PollRecordsTimes(s: State, a: Action, id: SubmissionId, times: seq<Time>)
    requires id in s.used && RecordsTimes(s, id, times) && IsCurrent(s, a, id) && Polls(s, a, id)
    ensures RecordsTimes(Next(s, a), id, times + NewTimes(s, a, id))
  {
  }

  lemma OtherStepRecordsTimes(s: State, a: Action, id: SubmissionId, times: seq<Time>)
    requires Invariant(s) && RecordsTimes(s, id, times) && !Polls(s, a, id)
    ensures RecordsTimes(Next(s, a), id, times)
  {
  }

  lemma {:induction false} RunIsRecorded(actions: seq<Action>, id: SubmissionId)
    requires PollsAreCurrent(actions, id)
    ensures ScheduleIsRecorded(Run(INITIAL, actions), id)
    decreases |actions|
  {
    if actions != [] {
      var front, a := actions[..|actions| - 1], actions[|actions| - 1];
      var s := Run(INITIAL, front);
      forall k | 0 <= k < |front|
        ensures IsCurrent(Run(INITIAL, front[..k]), front[k], id)
      {
        assert front[..k] == actions[..k];
      }
      RunIsRecorded(front, id);
      RunKeepsInvariant(front);
      assert IsCurrent(s, a, id);
      LogAfterStep(s, a);
      TimesAfterEvents(s.log, NewEvents(s, a), id);
      if Polls(s, a, id) {
        PollRecordsTimes(s, a, id, ScheduleTimes(s.log, id));
      } else {
        OtherStepRecordsTimes(s, a, id, ScheduleTimes(s.log, id));
        assert ScheduleTimes(s.log, id) + NewTimes(s, a, id) == ScheduleTimes(s.log, id);
      }
    }
  }

  /**
   In every run, whatever tasks, workers, crashes and cleanups do: if each poll that writes has read the
   row after it was last scheduled, any two tasks are more than the time-to-live apart.
   */
  lemma {:induction false} SchedulesAreApart(actions: seq<Action>, id: SubmissionId)
    requires PollsAreCurrent(actions, id)
    ensures Apart(ScheduleTimes(Run(INITIAL, actions).log, id))
  {
    RunIsRecorded(actions, id);
  }

  lemma {:induction false} ApartAddsUp(times: seq<Time>)
    requires |times| >= 2 && Apart(times)
    ensures times[|times| - 1] - times[0] > (|times| - 1) * TASK_TTL
  {
    if |times| > 2 {
      ApartAddsUp(times[1..]);
      assert times[1] - times[0] > TASK_TTL;
    }
  }

  /** Such polls enqueue n tasks only over more than n - 1 times the time-to-live. */
  lemma {:induction false} ScheduleRateBound(actions: seq<Action>, id: SubmissionId)
    requires PollsAreCurrent(actions, id) && |ScheduleTimes(Run(INITIAL, actions).log, id)| >= 2
    ensures var times := ScheduleTimes(Run(INITIAL, actions).log, id);
            times[|times| - 1] - times[0] > (|times| - 1) * 5 * 60 * 1000000
  {
    SchedulesAreApart(actions, id);
    ApartAddsUp(ScheduleTimes(Run(INITIAL, actions).log, id));
  }

  /** A poller's copy of a submission still shows when the row was last scheduled. */
  predicate Agrees(s: State, p: PollerId, id: SubmissionId) {
    && id in s.used
    && (p in s.polls && s.polls[p].submission == id && id in s.rows ==>
          s.polls[p].row.scheduled == s.rows[id].scheduled)
  }

  lemma OthersKeepCopy(s: State, a: Action, p: PollerId, id: SubmissionId)
    requires Invariant(s) && Agrees(s, p, id) && !Polls(s, a, id) && !(a.Load? && a.poller == p)
    ensures Agrees(Next(s, a), p, id)
  {
  }

  /** Another poll of this submission that writes, or a poller's next reading. */
  predicate Disturbs(s: State, a: Action, p: PollerId, id: SubmissionId) {
    Polls(s, a, id) || (a.Load? && a.poller == p)
  }

  /** From the action numbered `l` on no other poll has written. */
  ghost predicate Undisturbed(actions: seq<Action>, l: nat, p: PollerId, id: SubmissionId) {
    forall k :: l < k < |actions| ==> !Disturbs(Run(INITIAL, actions[..k]), actions[k], p, id)
  }

  /** A poll is current if no other poll has written between its reading of the row and its writing. */
  lemma {:induction false} SerialPollIsCurrent(actions: seq<Action>, l: nat, p: PollerId, id: SubmissionId)
    requires l < |actions| && actions[l] == Load(p, id) && id in Run(INITIAL, actions[..l]).rows
    requires Undisturbed(actions, l, p, id)
    ensures Agrees(Run(INITIAL, actions), p, id)
    decreases |actions|
  {
    var front, a := actions[..|actions| - 1], actions[|actions| - 1];
    var s := Run(INITIAL, front);
    RunKeepsInvariant(front);
    if l < |front| {
      forall k | l <= k <= |front|
        ensures front[..k] == actions[..k]
      {
      }
      assert !Disturbs(Run(INITIAL, actions[..|front|]), actions[|front|], p, id);
      SerialPollIsCurrent(front, l, p, id);
      OthersKeepCopy(s, a, p, id);
    } else {
      LoadAgrees(s, p, id);
    }
  }

  lemma LoadAgrees(s: State, p: PollerId, id: SubmissionId)
    requires Invariant(s) && id in s.rows
    ensures Agrees(Next(s, Load(p, id)), p, id)
  {
  }

  /** A poll whose three readings of the clock are `now` enqueues a task. */
  predicate Enqueues(s: State, p: PollerId, now: Time) {
    p in s.polls && Next(s, Poll(p, now, now, now)).log == s.log + [Enqueued(s.polls[p].submission, now)]
  }

  /**
   Exactly which polls can come too soon after a time `t`: those that find the row unlocked and whose copy
   is pending and does not show a schedule at `t` or later.
   */
  lemma EnqueuesWithinIff(s: State, p: PollerId, t: Time)
    requires p in s.polls
    ensures var id, copy := s.polls[p].submission, s.polls[p].row;
            (exists now :: t <= now <= t + TASK_TTL && Enqueues(s, p, now)) <==>
            && id in s.rows && !s.Locked(id) && copy.status == Pending
            && (copy.scheduled.None? || copy.scheduled.value < t)
  {
    var id, copy := s.polls[p].submission, s.polls[p].row;
    if id in s.rows && !s.Locked(id) && MaySchedule(copy, t + TASK_TTL) {
      assert Enqueues(s, p, t + TASK_TTL);
    }
    forall now | t <= now <= t + TASK_TTL && Enqueues(s, p, now)
      ensures id in s.rows && !s.Locked(id) && MaySchedule(copy, now)
    {
      assert |s.log + [Enqueued(id, now)]| == |s.log| + 1;
    }
  }

  /** The time a submission was last enqueued. */
  function LastSchedule(log: seq<Event>, id: SubmissionId): Time
    requires ScheduleTimes(log, id) != []
  {
    ScheduleTimes(log, id)[|ScheduleTimes(log, id)| - 1]
  }

  lemma RecordedTooSoonIff(s: State, p: PollerId, id: SubmissionId)
    requires p in s.polls && s.polls[p].submission == id && ScheduleIsRecorded(s, id)
    requires id in s.rows && ScheduleTimes(s.log, id) != []
    ensures var last := LastSchedule(s.log, id);
            (exists now :: last <= now <= last + TASK_TTL && Enqueues(s, p, now)) <==>
            !s.Locked(id) && s.polls[p].row.status == Pending && s.polls[p].row.scheduled != s.rows[id].scheduled
  {
    EnqueuesWithinIff(s, p, LastSchedule(s.log, id));
  }

  /**
   After polls that were current, the next one can enqueue a task within the time-to-live of the last one
   exactly if it finds the row unlocked and its copy is pending but no longer shows when the row was last
   scheduled.
   */
  lemma {:induction false} TooSoonIffStale(actions: seq<Action>, p: PollerId, id: SubmissionId)
    requires PollsAreCurrent(actions, id)
    requires var s := Run(INITIAL, actions);
             && p in s.polls && s.polls[p].submission == id
             && id in s.rows && ScheduleTimes(s.log, id) != []
    ensures var s := Run(INITIAL, actions); var last := LastSchedule(s.log, id);
            (exists now :: last <= now <= last + TASK_TTL && Enqueues(s, p, now)) <==>
            !s.Locked(id) && s.polls[p].row.status == Pending && s.polls[p].row.scheduled != s.rows[id].scheduled
  {
    RunIsRecorded(actions, id);
    RecordedTooSoonIff(Run(INITIAL, actions), p, id);
  }

  // ----- nothing is scheduled once finished -----

  /** The poll's copy was read after the row's status last changed. */
  predicate StatusIsCurrent(s: State, a: Action, id: SubmissionId) {
    Polls(s, a, id) ==> s.polls[a.poller].row.status == s.rows[id].status
  }

  ghost predicate NoneAfterCommit(log: seq<Event>, id: SubmissionId) {
    forall i, j :: 0 <= i < j < |log| && log[i].Committed? && log[i].submission == id ==>
      !(log[j].Enqueued? && log[j].submission == id)
  }

  lemma {:induction false} CommittedCounts(log: seq<Event>, id: SubmissionId, i: nat)
    requires i < |log| && log[i].Committed? && log[i].submission == id
    ensures Commits(log, id) >= 1
    decreases |log|
  {
    if i < |log| - 1 {
      CommittedCounts(log[..|log| - 1], id, i);
    }
  }

  lemma StepSchedulesNoFinished(s: State, a: Action, id: SubmissionId)
    requires Invariant(s) && StatusIsCurrent(s, a, id) && NoneAfterCommit(s.log, id)
    ensures NoneAfterCommit(Next(s, a).log, id)
  {
    if Polls(s, a, id) && s.rows[id].status == Pending {
      forall i | 0 <= i < |s.log|
        ensures !(s.log[i].Committed? && s.log[i].submission == id)
      {
        if s.log[i].Committed? && s.log[i].submission == id {
          CommittedCounts(s.log, id, i);
        }
      }
    }
  }

  /**
   In every run: if each poll that writes has read the row after its status last changed, no task is
   enqueued after the submission was committed.
   */
  lemma {:induction false} NoScheduleOnceFinished(actions: seq<Action>, id: SubmissionId)
    requires forall k :: 0 <= k < |actions| ==> StatusIsCurrent(Run(INITIAL, actions[..k]), actions[k], id)
    ensures NoneAfterCommit(Run(INITIAL, actions).log, id)
    decreases |actions|
  {
    if actions != [] {
      var front := actions[..|actions| - 1];
      forall k | 0 <= k < |front|
        ensures StatusIsCurrent(Run(INITIAL, front[..k]), front[k], id)
      {
        assert front[..k] == actions[..k];
      }
      NoScheduleOnceFinished(front, id);
      RunKeepsInvariant(front);
      StepSchedulesNoFinished(Run(INITIAL, front), actions[|actions| - 1], id);
    }
  }

  /** After its commit a submission can be enqueued again exactly by polls that still hold it as pending. */
  lemma {:induction false} EnqueuesOnceFinishedIff(actions: seq<Action>, p: PollerId)
    requires p in Run(INITIAL, actions).polls
    requires var s := Run(INITIAL, actions); var id := s.polls[p].submission;
             id in s.rows && s.rows[id].status == Finished
    ensures var s := Run(INITIAL, actions);
            (exists now :: Enqueues(s, p, now)) <==> s.polls[p].row.status == Pending
  {
    var s := Run(INITIAL, actions);
    var id, copy := s.polls[p].submission, s.polls[p].row;
    RunKeepsInvariant(actions);
    EnqueuesWithinIff(s, p, if copy.scheduled.Some? then copy.scheduled.value + 1 else 0);
    forall now | Enqueues(s, p, now)
      ensures MaySchedule(copy, now)
    {
      assert |s.log + [Enqueued(id, now)]| == |s.log| + 1;
    }
  }

  lemma RunSnoc(actions: seq<Action>, a: Action)
    ensures Run(INITIAL, actions + [a]) == Next(Run(INITIAL, actions), a)
  {
    assert (actions + [a])[..|actions|] == actions;
  }

  /** Two polls have read the same pending row, which nothing has scheduled. */
  predicate TwoCopies(s: State) {
    && s.rows.Keys == {1} && s.workers == map[] && s.log == []
    && s.polls.Keys == {1, 2} && s.polls[1] == s.polls[2] == Copy(1, Row(Pending, None, 0, None, None, None, None))
  }

  lemma BothEnqueue(s: State)
    requires TwoCopies(s)
    ensures Next(Next(s, Poll(1, 5, 5, 5)), Poll(2, 5, 5, 5)).log == [Enqueued(1, 5), Enqueued(1, 5)]
  {
    var t := Next(s, Poll(1, 5, 5, 5));
    assert 1 in t.rows && 2 in t.polls && t.workers == map[] && t.log == [Enqueued(1, 5)];
  }

  lemma TwoCopiesAreRead()
    ensures TwoCopies(Run(INITIAL, [] + [Submit(1, 0)] + [Load(1, 1)] + [Load(2, 1)]))
  {
    var pending := Row(Pending, None, 0, None, None, None, None);
    RunSnoc([], Submit(1, 0));
    var submitted := Run(INITIAL, [] + [Submit(1, 0)]);
    assert submitted == State(map[1 := pending], {1}, map[], map[], {}, []);
    RunSnoc([] + [Submit(1, 0)], Load(1, 1));
    RunSnoc([] + [Submit(1, 0)] + [Load(1, 1)], Load(2, 1));
  }

  /** Polls that read the row before either writes it can both enqueue at one and the same time. */
  lemma StalePollsScheduleTwice()
    ensures Run(INITIAL, [Submit(1, 0), Load(1, 1), Load(2, 1), Poll(1, 5, 5, 5), Poll(2, 5, 5, 5)]).log ==
            [Enqueued(1, 5), Enqueued(1, 5)]
  {
    var actions := [] + [Submit(1, 0)] + [Load(1, 1)] + [Load(2, 1)];
    TwoCopiesAreRead();
    BothEnqueue(Run(INITIAL, actions));
    RunSnoc(actions, Poll(1, 5, 5, 5));
    RunSnoc(actions + [Poll(1, 5, 5, 5)], Poll(2, 5, 5, 5));
    assert actions + [Poll(1, 5, 5, 5)] + [Poll(2, 5, 5, 5)] ==
        [Submit(1, 0), Load(1, 1), Load(2, 1), Poll(1, 5, 5, 5), Poll(2, 5, 5, 5)];
  }
}
