/**
 The gates never deadlock: as long as a thread has not finished, some thread has a region to run that
 is not one more turn of a waiting loop, and such regions run out. So every fair schedule ends with all
 IRPs answered, the adapter closed and the resources released.
*/
module LifecycleProgress {
  import opened Lifecycle
  import opened LifecycleSafety

  predicate Done(t: Thread) {
    t.Answered? || t.Finished?
  }

  predicate AllDone(s: System) {
    forall i :: 0 <= i < |s.threads| ==> Done(s.threads[i])
  }

  /** One more turn of a waiting loop, or nothing left to do. */
  predicate Waits(s: System, i: nat)
    requires i < |s.threads|
  {
    Step(s, i) == s
  }

  // ---------------------------------------------------------------- regions run out

  function Ahead(t: Thread): nat {
    match t
    case Arriving(n) => 2 * n + 2
    case Working(n) => 2 * n + 1
    case Holding(n) => 2 * n + 2
    case CleaningUp => 8
    case Draining => 7
    case Closing(WaitUsage, _) => 6
    case Closing(WaitUnbinding, _) => 5
    case Closing(Issue, _) => 4
    case Closing(AwaitNdis, _) => 3
    case Closing(Conclude, _) => 2
    case Closing(Returned, _) => 1
    case Answered | Finished(_) => 0
  }

  function Measure(ts: seq<Thread>): nat {
    if ts == [] then 0 else Ahead(ts[0]) + Measure(ts[1..])
  }

  lemma {:induction false} MeasureUpdate(ts: seq<Thread>, i: nat, t: Thread)
    requires i < |ts|
    ensures Measure(ts[i := t]) + Ahead(ts[i]) == Measure(ts) + Ahead(t)
  {
    var us := ts[i := t];
    if i == 0 {
      assert us[1..] == ts[1..];
    } else {
      assert us[1..] == ts[1..][i - 1 := t];
      MeasureUpdate(ts[1..], i - 1, t);
    }
  }

  /** A region is a turn of a waiting loop, or brings its thread nearer to its end. */
  lemma StepProgress(s: System, i: nat)
    requires Inv(s) && i < |s.threads|
    ensures Waits(s, i) || Measure(Step(s, i).threads) < Measure(s.threads)
  {
    StepKeeps(s, i);
    var t, e := s.threads[i], Region(s.g, s.threads[i]);
    MeasureUpdate(s.threads, i, e.t);
    RegionProgress(s.g, t);
    assert s.threads[i := t] == s.threads;
  }

  lemma RegionProgress(g: Gates, t: Thread)
    requires Region(g, t).asserts && ThreadOk(g, t)
    ensures var e := Region(g, t); (e.t == t && e.g == g) || Ahead(e.t) < Ahead(t)
  {
  }

  // ---------------------------------------------------------------- no deadlock

  /** Only waiting for others stops a thread, and there is always one that waits for nobody. */
  lemma SomeoneMoves(s: System) returns (i: nat)
    requires Inv(s) && !AllDone(s)
    ensures i < |s.threads| && !Waits(s, i)
  {
    CountZero(IsInside, s.threads);
    CountZero(IsHolding, s.threads);
    CountZero(IsCarrying, s.threads);
    if j: nat :| j < |s.threads| && (s.threads[j].Arriving? || IsInside(s.threads[j])) {
      i := j;
      StepKeeps(s, i);
    } else if j: nat :| j < |s.threads| && IsCarrying(s.threads[j]) {
      i := j;
    } else {
      assert !exists j :: 0 <= j < |s.threads| && IsCarrying(s.threads[j]);
      assert s.g.pendingIrps == 0 && s.g.usage == 0 && s.g.status != Unbinding;
      i :| i < |s.threads| && !Done(s.threads[i]);
    }
    assert Step(s, i).threads[i] == Region(s.g, s.threads[i]).t;
    MovesOn(s, i);
  }

  lemma MovesOn(s: System, i: nat)
    requires Inv(s) && i < |s.threads| && !Done(s.threads[i])
    requires s.threads[i].Arriving? || IsInside(s.threads[i]) || IsCarrying(s.threads[i])
          || (s.g.pendingIrps == 0 && s.g.usage == 0 && s.g.status != Unbinding)
    ensures Step(s, i).threads[i] != s.threads[i]
  {
    StepKeeps(s, i);
    hide Count;
  }

  // ---------------------------------------------------------------- fair schedules

  /** Every thread gets a turn. */
  predicate Fair(s: System, turns: seq<nat>) {
    && IsSchedule(s, turns)
    && forall i: nat :: i < |s.threads| ==> i in turns
  }

  /** A stretch of a schedule either brings the system nearer to its end, or all of it was waiting. */
  lemma {:induction false} StretchProgress(s: System, turns: seq<nat>)
    requires Inv(s) && IsSchedule(s, turns)
    ensures Measure(Run(s, turns).threads) < Measure(s.threads)
         || (Run(s, turns) == s && forall i: nat :: i in turns ==> i < |s.threads| && Waits(s, i))
    decreases |turns|
  {
    if turns != [] {
      Tail(s, turns);
      StepKeeps(s, turns[0]);
      StepProgress(s, turns[0]);
      StretchProgress(Step(s, turns[0]), turns[1..]);
      assert forall i :: i in turns ==> i == turns[0] || i in turns[1..];
    }
  }

  lemma FairProgress(s: System, turns: seq<nat>)
    requires Inv(s) && Fair(s, turns) && !AllDone(s)
    ensures Measure(Run(s, turns).threads) < Measure(s.threads)
  {
    StretchProgress(s, turns);
    var i := SomeoneMoves(s);
    assert i in turns;
  }

  predicate FairRounds(s: System, rounds: seq<seq<nat>>) {
    forall k :: 0 <= k < |rounds| ==> Fair(s, rounds[k])
  }

  function RunRounds(s: System, rounds: seq<seq<nat>>): (n: System)
    requires FairRounds(s, rounds)
    ensures |n.threads| == |s.threads|
    decreases |rounds|
  {
    if rounds == [] then s
    else
      assert forall k :: 0 <= k < |rounds[1..]| ==> rounds[1..][k] == rounds[k + 1];
      RunRounds(Run(s, rounds[0]), rounds[1..])
  }

  lemma {:induction false} RoundsFinish(s: System, rounds: seq<seq<nat>>)
    requires Inv(s) && FairRounds(s, rounds) && Measure(s.threads) <= |rounds|
    ensures Inv(RunRounds(s, rounds)) && AllDone(RunRounds(s, rounds))
    ensures Count(IsCleanup, RunRounds(s, rounds).threads) == Count(IsCleanup, s.threads)
    ensures Count(IsCloser, RunRounds(s, rounds).threads) == Count(IsCloser, s.threads)
    decreases |rounds|
  {
    if rounds == [] {
      if !AllDone(s) {
        var i := SomeoneMoves(s);
        StepProgress(s, i);
      }
    } else {
      assert forall k :: 0 <= k < |rounds[1..]| ==> rounds[1..][k] == rounds[k + 1];
      var n := Run(s, rounds[0]);
      RunKeeps(s, rounds[0]);
      KindsStay(s, rounds[0]);
      StretchProgress(s, rounds[0]);
      if AllDone(s) {
        DoneStays(s, rounds);
      } else {
        FairProgress(s, rounds[0]);
        RoundsFinish(n, rounds[1..]);
      }
    }
  }

  lemma {:induction false} DoneRuns(s: System, turns: seq<nat>)
    requires AllDone(s) && IsSchedule(s, turns)
    ensures Run(s, turns) == s
    decreases |turns|
  {
    if turns != [] {
      Tail(s, turns);
      assert Done(s.threads[turns[0]]);
      assert Step(s, turns[0]).threads == s.threads;
      DoneRuns(s, turns[1..]);
    }
  }

  lemma {:induction false} DoneStays(s: System, rounds: seq<seq<nat>>)
    requires AllDone(s) && FairRounds(s, rounds)
    ensures RunRounds(s, rounds) == s
    decreases |rounds|
  {
    if rounds != [] {
      assert forall k :: 0 <= k < |rounds[1..]| ==> rounds[1..][k] == rounds[k + 1];
      DoneRuns(s, rounds[0]);
      DoneStays(s, rounds[1..]);
    }
  }

  /** Cleanups stay cleanups and closers stay closers, wherever they stand. */
  lemma {:induction false} KindsStay(s: System, turns: seq<nat>)
    requires IsSchedule(s, turns)
    ensures Count(IsCleanup, Run(s, turns).threads) == Count(IsCleanup, s.threads)
    ensures Count(IsCloser, Run(s, turns).threads) == Count(IsCloser, s.threads)
    decreases |turns|
  {
    if turns != [] {
      Tail(s, turns);
      var t, e := s.threads[turns[0]], Region(s.g, s.threads[turns[0]]).t;
      CountUpdate(IsCleanup, s.threads, turns[0], e);
      CountUpdate(IsCloser, s.threads, turns[0], e);
      assert IsCleanup(e) == IsCleanup(t) && IsCloser(e) == IsCloser(t);
      KindsStay(Step(s, turns[0]), turns[1..]);
    }
  }

  /**
   Whatever the order, once every thread has had as many turns as there are regions to run, all IRPs
   are answered and all closers have returned; the adapter has been closed exactly once if there was
   a closer and not at all otherwise, and the resources have been released once for every cleanup.
   */
  lemma FairSchedulesFinish(s: System, rounds: seq<seq<nat>>)
    requires Init(s) && FairRounds(s, rounds) && Measure(s.threads) <= |rounds|
    ensures var n := RunRounds(s, rounds);
      && AllDone(n) && n.g.usage == 0 && n.g.pendingIrps == 0
      && n.g.closeCalls == (if exists i :: 0 <= i < |s.threads| && IsCloser(s.threads[i]) then 1 else 0)
      && (n.g.status == Unbound <==> exists i :: 0 <= i < |s.threads| && IsCloser(s.threads[i]))
      && n.g.releases == Count(IsCleanup, s.threads)
  {
    InitHolds(s);
    RoundsFinish(s, rounds);
    var n := RunRounds(s, rounds);
    CountZero(IsHolding, n.threads);
    CountZero(IsInside, n.threads);
    CountZero(IsCarrying, n.threads);
    CountZero(IsCloser, n.threads);
    CountZero(IsCloser, s.threads);
    SameCount(n.threads);
    if i :| 0 <= i < |n.threads| && IsCloser(n.threads[i]) {
      assert Done(n.threads[i]) && ThreadOk(n.g, n.threads[i]);
    }
  }

  lemma {:induction false} SameCount(ts: seq<Thread>)
    requires forall i :: 0 <= i < |ts| ==> Done(ts[i])
    ensures Count(HasReleased, ts) == Count(IsCleanup, ts)
  {
    if ts != [] {
      assert Done(ts[0]);
      assert forall i :: 0 <= i < |ts[1..]| ==> ts[1..][i] == ts[i + 1];
      SameCount(ts[1..]);
    }
  }
}
