/**
 The promise throttler: callers wait until fewer than `parallelism` others are inside the wrapped
 function. Callers are cooperative tasks; each action is one stretch of code between two awaits.
 */
module Throttle {
  import opened Prelude

  class PromiseThrottler {
    const parallelism: int
    var ongoing: int

    /** Everyone who has called so far, and where they are. */
    ghost var callers: seq<Caller>

    ghost function View(): State
      reads this
    {
      State(ongoing, callers)
    }

    /** The counter is the number of callers inside, and within the limit. */
    ghost predicate Valid()
      reads this
    {
      Invariant(parallelism, View())
    }

    constructor (parallelism: int)
      ensures this.parallelism == parallelism && Valid() && callers == []
    {
      this.parallelism, ongoing, callers := parallelism, 0, [];
    }

    predicate CanStartNext()
      reads this
    {
      parallelism - ongoing > 0
    }

    /** New callers, who have not looked for room yet. */
    ghost method Arrive(count: nat)
      requires Valid()
      modifies `callers
      ensures Valid() && callers == old(callers) + seq(count, _ => Waiting)
    {
      InsideCountArrive(callers, count);
      callers := callers + seq(count, _ => Waiting);
    }

    /** One pass of the waiting loop: the caller enters if fewer than the limit are inside. */
    method TryEnter(ghost c: nat) returns (entered: bool)
      requires Valid() && c < |callers| && callers[c] == Waiting
      modifies this
      ensures Valid()
      ensures entered <==> InsideCount(old(callers)) < parallelism
      ensures callers == if entered then old(callers)[c := Inside] else old(callers)
      ensures InsideCount(callers) == InsideCount(old(callers)) + (if entered then 1 else 0)
    {
      entered := CanStartNext();
      if entered {
        ongoing := ongoing + 1;
        InsideCountUpdate(callers, c, Inside);
        callers := callers[c := Inside];
      }
    }

    /** The `finally` clause, whether the function returned or threw: a place becomes free again. */
    method Leave(ghost c: nat, ghost ok: bool)
      requires Valid() && c < |callers| && callers[c] == Inside
      modifies this
      ensures Valid()
      ensures callers == old(callers)[c := Left(ok)]
      ensures InsideCount(callers) == InsideCount(old(callers)) - 1
    {
      ongoing := ongoing - 1;
      InsideCountUpdate(callers, c, Left(ok));
      callers := callers[c := Left(ok)];
    }
  }

  predicate Room(parallelism: int, ongoing: int) { parallelism - ongoing > 0 }

  datatype Caller = Waiting | Inside | Left(ok: bool)

  datatype State = State(ongoing: int, callers: seq<Caller>)

  datatype Action = Arrive(count: nat) | TryStart(caller: nat) | Finish(caller: nat, ok: bool)

  function Next(parallelism: int, s: State, a: Action): State {
    match a
    case Arrive(count) => s.(callers := s.callers + seq(count, _ => Waiting))
    case TryStart(c) =>
      if c < |s.callers| && s.callers[c] == Waiting && Room(parallelism, s.ongoing) then
        State(s.ongoing + 1, s.callers[c := Inside])
      else s
    case Finish(c, ok) =>
      if c < |s.callers| && s.callers[c] == Inside then State(s.ongoing - 1, s.callers[c := Left(ok)]) else s
  }

  const INITIAL := State(0, [])

  function Run(parallelism: int, s: State, actions: seq<Action>): State
    decreases |actions|
  {
    if actions == [] then s
    else Next(parallelism, Run(parallelism, s, actions[..|actions| - 1]), actions[|actions| - 1])
  }

  /** How many callers are inside the function. */
  function InsideCount(callers: seq<Caller>): nat {
    if callers == [] then 0 else (if callers[0] == Inside then 1 else 0) + InsideCount(callers[1..])
  }

  lemma {:induction false} InsideCountUpdate(callers: seq<Caller>, c: nat, caller: Caller)
    requires c < |callers|
    ensures InsideCount(callers[c := caller]) ==
            InsideCount(callers) - (if callers[c] == Inside then 1 else 0) + (if caller == Inside then 1 else 0)
  {
    if c == 0 {
      assert callers[c := caller][1..] == callers[1..];
    } else {
      InsideCountUpdate(callers[1..], c - 1, caller);
      assert callers[c := caller][1..] == callers[1..][c - 1 := caller];
    }
  }

  lemma {:induction false} InsideCountArrive(callers: seq<Caller>, count: nat)
    ensures InsideCount(callers + seq(count, _ => Waiting)) == InsideCount(callers)
  {
    var more := seq(count, _ => Waiting);
    if callers == [] {
      assert callers + more == more;
      if count > 0 {
        InsideCountArrive([], count - 1);
        assert more[1..] == seq(count - 1, _ => Waiting);
        assert [] + seq(count - 1, _ => Waiting) == seq(count - 1, _ => Waiting);
      }
    } else {
      InsideCountArrive(callers[1..], count);
      assert (callers + more)[1..] == callers[1..] + more;
    }
  }

  lemma {:induction false} NoneInside(callers: seq<Caller>)
    ensures InsideCount(callers) == 0 <==> forall c :: 0 <= c < |callers| ==> callers[c] != Inside
  {
    if callers != [] {
      NoneInside(callers[1..]);
      assert forall c :: 1 <= c < |callers| ==> callers[c] == callers[1..][c - 1];
    }
  }

  /** The counter is the number of callers inside, and it never passes the limit. */
  ghost predicate Invariant(parallelism: int, s: State) {
    s.ongoing == InsideCount(s.callers) <= Max(parallelism, 0)
  }

  /** Every step changes the counter by as much as the number of callers inside. */
  lemma NextConserves(parallelism: int, s: State, a: Action)
    ensures var t := Next(parallelism, s, a);
            t.ongoing - s.ongoing == InsideCount(t.callers) - InsideCount(s.callers)
  {
    match a
    case Arrive(count) => InsideCountArrive(s.callers, count);
    case TryStart(c) =>
      if c < |s.callers| {
        InsideCountUpdate(s.callers, c, Inside);
      }
    case Finish(c, ok) =>
      if c < |s.callers| {
        InsideCountUpdate(s.callers, c, Left(ok));
      }
  }

  lemma NextKeepsInvariant(parallelism: int, s: State, a: Action)
    requires Invariant(parallelism, s)
    ensures Invariant(parallelism, Next(parallelism, s, a))
  {
    NextConserves(parallelism, s, a);
  }

  /** Under every schedule of any number of callers. */
  lemma {:induction false} NeverOverLimit(parallelism: int, actions: seq<Action>)
    ensures Invariant(parallelism, Run(parallelism, INITIAL, actions))
    decreases |actions|
  {
    if actions != [] {
      NeverOverLimit(parallelism, actions[..|actions| - 1]);
      NextKeepsInvariant(parallelism, Run(parallelism, INITIAL, actions[..|actions| - 1]), actions[|actions| - 1]);
    }
  }

  /** While a caller is inside, whatever the others do leaves it inside and keeps the counter in step. */
  lemma {:induction false} StaysInside(parallelism: int, s: State, c: nat, others: seq<Action>)
    requires c < |s.callers| && s.callers[c] == Inside
    requires forall a | a in others :: !(a.Finish? && a.caller == c)
    ensures var t := Run(parallelism, s, others);
            && c < |t.callers| && t.callers[c] == Inside
            && t.ongoing - s.ongoing == InsideCount(t.callers) - InsideCount(s.callers)
    decreases |others|
  {
    if others != [] {
      var front := others[..|others| - 1];
      StaysInside(parallelism, s, c, front);
      NextConserves(parallelism, Run(parallelism, s, front), others[|others| - 1]);
    }
  }

  /**
   A caller that enters, and leaves with a result or an error, changes the counter by nothing: whatever
   the others do in between, the counter has moved exactly as much as the number of others inside.
   */
  lemma {:induction false} PassIsNeutral(parallelism: int, s: State, c: nat, ok: bool, others: seq<Action>)
    requires c < |s.callers| && s.callers[c] == Waiting && Room(parallelism, s.ongoing)
    requires forall a | a in others :: !(a.Finish? && a.caller == c)
    ensures var after := Run(parallelism, Next(parallelism, s, TryStart(c)), others);
            var left := Next(parallelism, after, Finish(c, ok));
            && c < |left.callers| && left.callers[c] == Left(ok)
            && left.ongoing - s.ongoing == InsideCount(left.callers) - InsideCount(s.callers)
  {
    var inside := Next(parallelism, s, TryStart(c));
    NextConserves(parallelism, s, TryStart(c));
    StaysInside(parallelism, inside, c, others);
    NextConserves(parallelism, Run(parallelism, inside, others), Finish(c, ok));
  }

  /** When callers wait and none is inside, any of them can start exactly if the limit is positive. */
  lemma WaiterCanStartIff(parallelism: int, actions: seq<Action>, c: nat)
    requires var s := Run(parallelism, INITIAL, actions);
             c < |s.callers| && s.callers[c] == Waiting && forall k :: 0 <= k < |s.callers| ==> s.callers[k] != Inside
    ensures var s := Run(parallelism, INITIAL, actions);
            Next(parallelism, s, TryStart(c)).callers[c] == Inside <==> parallelism > 0
  {
    NeverOverLimit(parallelism, actions);
    NoneInside(Run(parallelism, INITIAL, actions).callers);
  }
}
