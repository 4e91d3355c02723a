/**
 The gates let IRPs in: as long as nobody closes the instance, every IRP gets in, and gets the binding as
 often as it asks for it.
*/
module LifecycleAccess {
  import opened Lifecycle
  import opened LifecycleSafety
  import opened LifecycleProgress

  /** How often, along the schedule, thread `i` comes to satisfy `p`. */
  function Enters(p: Thread -> bool, s: System, schedule: seq<nat>, i: nat): nat
    requires IsSchedule(s, schedule) && i < |s.threads|
    decreases |schedule|
  {
    if schedule == [] then 0
    else
      Tail(s, schedule);
      var n := Step(s, schedule[0]);
      (if !p(s.threads[i]) && p(n.threads[i]) then 1 else 0) + Enters(p, n, schedule[1..], i)
  }

  /** Only IRP threads, and nobody has closed anything. */
  predicate Open(s: System) {
    && s.g.status == Bound && !s.g.closePending
    && forall i :: 0 <= i < |s.threads| ==> !IsCloser(s.threads[i])
  }

  /** The requests for the binding that an IRP thread has still to make. */
  function Left(t: Thread): nat {
    if t.Arriving? || t.Working? || t.Holding? then t.calls else 0
  }

  lemma StepAccess(s: System, j: nat, i: nat)
    requires Inv(s) && Open(s) && j < |s.threads| && i < |s.threads|
    ensures Open(Step(s, j))
    ensures var t, u := s.threads[i], Step(s, j).threads[i];
      && Left(t) == Left(u) + (if !IsHolding(t) && IsHolding(u) then 1 else 0)
      && (if t.Arriving? then 1 else 0)
           == (if u.Arriving? then 1 else 0) + (if !IsInside(t) && IsInside(u) then 1 else 0)
  {
    hide Count;
    StepKeeps(s, j);
  }

  lemma {:induction false} AccessCounts(s: System, schedule: seq<nat>, i: nat)
    requires Inv(s) && Open(s) && IsSchedule(s, schedule) && i < |s.threads|
    ensures var t, u := s.threads[i], Run(s, schedule).threads[i];
      && Left(t) == Left(u) + Enters(IsHolding, s, schedule, i)
      && (if t.Arriving? then 1 else 0) == (if u.Arriving? then 1 else 0) + Enters(IsInside, s, schedule, i)
    decreases |schedule|
  {
    hide Inv, Open, Left, Step, IsHolding, IsInside;
    if schedule != [] {
      Tail(s, schedule);
      StepKeeps(s, schedule[0]);
      StepAccess(s, schedule[0], i);
      AccessCounts(Step(s, schedule[0]), schedule[1..], i);
    }
  }

  // ---------------------------------------------------------------- rounds as one schedule

  function Joined(rounds: seq<seq<nat>>): seq<nat> {
    if rounds == [] then [] else rounds[0] + Joined(rounds[1..])
  }

  lemma {:induction false} RunTwo(s: System, a: seq<nat>, b: seq<nat>)
    requires IsSchedule(s, a) && IsSchedule(s, b)
    ensures IsSchedule(s, a + b) && Run(s, a + b) == Run(Run(s, a), b)
    decreases |a|
  {
    if a == [] {
      assert a + b == b;
    } else {
      Tail(s, a);
      RunTwo(Step(s, a[0]), a[1..], b);
      assert (a + b)[0] == a[0] && (a + b)[1..] == a[1..] + b;
      assert IsSchedule(s, a + b);
      Tail(s, a + b);
    }
  }

  lemma {:induction false} RoundsAreOneRun(s: System, rounds: seq<seq<nat>>)
    requires FairRounds(s, rounds)
    ensures IsSchedule(s, Joined(rounds)) && RunRounds(s, rounds) == Run(s, Joined(rounds))
    decreases |rounds|
  {
    if rounds != [] {
      assert forall k :: 0 <= k < |rounds[1..]| ==> rounds[1..][k] == rounds[k + 1];
      RoundsAreOneRun(Run(s, rounds[0]), rounds[1..]);
      RunTwo(s, rounds[0], Joined(rounds[1..]));
    }
  }

  /**
   While no cleanup and no unbind is about, every IRP thread gets into the instance once, has held the
   binding exactly as often as it asked for it, and is answered, whatever the order of the threads.
   */
  lemma EveryRequestIsGranted(s: System, rounds: seq<seq<nat>>, i: nat, calls: nat)
    requires Init(s) && (forall j :: 0 <= j < |s.threads| ==> s.threads[j].Arriving?)
    requires i < |s.threads| && s.threads[i] == Arriving(calls)
    requires FairRounds(s, rounds) && Measure(s.threads) <= |rounds|
    ensures IsSchedule(s, Joined(rounds)) && Run(s, Joined(rounds)).threads[i] == Answered
    ensures Enters(IsInside, s, Joined(rounds), i) == 1
    ensures Enters(IsHolding, s, Joined(rounds), i) == calls
  {
    hide Run, Enters, Measure, RunRounds;
    InitHolds(s);
    RoundsAreOneRun(s, rounds);
    AccessCounts(s, Joined(rounds), i);
    StaysOpen(s, Joined(rounds));
    RoundsFinish(s, rounds);
    assert Done(RunRounds(s, rounds).threads[i]);
  }

  lemma {:induction false} StaysOpen(s: System, schedule: seq<nat>)
    requires Inv(s) && Open(s) && IsSchedule(s, schedule)
    ensures Open(Run(s, schedule))
    decreases |schedule|
  {
    hide Inv, Open, Step;
    if schedule != [] {
      Tail(s, schedule);
      StepKeeps(s, schedule[0]);
      StepAccess(s, schedule[0], schedule[0]);
      StaysOpen(Step(s, schedule[0]), schedule[1..]);
    }
  }
}
