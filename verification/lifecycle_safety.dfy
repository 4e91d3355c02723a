/** What holds in every run of the two gates, with any number of threads in any order. */
module LifecycleSafety {
  import opened Lifecycle

  // ---------------------------------------------------------------- the invariant

  /** Both counters count the threads between a start and its stop. */
  predicate CountersOk(s: System) {
    && s.g.usage == Count(IsHolding, s.threads)
    && s.g.pendingIrps == Count(IsInside, s.threads)
  }

  predicate StatusOk(s: System) {
    && (s.g.status != Bound ==> Count(IsCloser, s.threads) > 0)
    && match s.g.status
       case Bound => Count(IsCarrying, s.threads) == 0 && s.g.closeCalls == 0
       case Unbinding => Count(IsCarrying, s.threads) == 1 && s.g.usage == 0
       case Unbound => Count(IsCarrying, s.threads) == 0 && s.g.usage == 0 && s.g.closeCalls == 1
  }

  /** What the gates look like to a thread that stands where `t` stands. */
  predicate ThreadOk(g: Gates, t: Thread) {
    && (t.Draining? ==> g.closePending)
    && (t.Closing? && t.cleanup ==> g.closePending && g.pendingIrps == 0)
    && (t.Closing? ==>
        match t.at
        case WaitUsage => true
        case WaitUnbinding => g.status != Bound
        case Issue => g.status == Unbinding && g.closeCalls == 0
        case AwaitNdis => g.status == Unbinding && g.closeCalls == 1
        case Conclude => g.status == Unbinding && g.closeCalls == 1
        case Returned => g.status == Unbound)
    && (t.Finished? ==> g.status == Unbound)
  }

  predicate ThreadsOk(s: System) {
    forall i :: 0 <= i < |s.threads| ==> ThreadOk(s.g, s.threads[i])
  }

  predicate ReleaseOk(s: System) {
    && s.g.releases == Count(HasReleased, s.threads)
    && (s.g.releases > 0 ==> s.g.closePending && s.g.pendingIrps == 0)
  }

  predicate Inv(s: System) {
    CountersOk(s) && StatusOk(s) && ThreadsOk(s) && ReleaseOk(s)
  }

  // ---------------------------------------------------------------- one step

  /** The thread about to move accounts for its share of every count. */
  lemma Share(s: System, i: nat, p: Thread -> bool)
    requires i < |s.threads|
    ensures var t, e := s.threads[i], Region(s.g, s.threads[i]).t;
      && Count(p, Step(s, i).threads) + (if p(t) then 1 else 0) == Count(p, s.threads) + (if p(e) then 1 else 0)
      && (p(t) ==> Count(p, s.threads) > 0)
  {
    hide Region;
    CountUpdate(p, s.threads, i, Region(s.g, s.threads[i]).t);
    CountZero(p, s.threads);
  }

  lemma StepCounters(s: System, i: nat)
    requires Inv(s) && i < |s.threads|
    ensures Region(s.g, s.threads[i]).asserts && CountersOk(Step(s, i))
  {
    hide Count, ThreadsOk, ThreadOk, ReleaseOk;
    Share(s, i, IsHolding);
    Share(s, i, IsInside);
  }

  lemma StepStatus(s: System, i: nat)
    requires Inv(s) && i < |s.threads|
    ensures StatusOk(Step(s, i))
  {
    assert ThreadOk(s.g, s.threads[i]);
    hide Count, ThreadsOk, CountersOk, ReleaseOk;
    Share(s, i, IsCloser);
    Share(s, i, IsCarrying);
  }

  lemma StepRelease(s: System, i: nat)
    requires Inv(s) && i < |s.threads|
    ensures ReleaseOk(Step(s, i))
  {
    assert ThreadOk(s.g, s.threads[i]);
    hide Count, ThreadsOk, CountersOk, StatusOk;
    Share(s, i, HasReleased);
  }

  /** The region leaves its own thread where the gates are as that thread expects. */
  lemma OwnRegion(g: Gates, t: Thread)
    requires ThreadOk(g, t) && (g.status == Bound ==> g.closeCalls == 0)
    ensures ThreadOk(Region(g, t).g, Region(g, t).t)
  {
  }

  lemma StepOwn(s: System, i: nat)
    requires Inv(s) && i < |s.threads|
    ensures ThreadOk(Step(s, i).g, Step(s, i).threads[i])
  {
    hide Region, ThreadOk, Count;
    assert ThreadOk(s.g, s.threads[i]);
    OwnRegion(s.g, s.threads[i]);
  }

  /** No step takes away what another thread relies on: there is only one thread that carries the close. */
  lemma StepKeepsOthers(s: System, i: nat, j: nat)
    requires Inv(s) && i < |s.threads| && j < |s.threads| && i != j
    ensures ThreadOk(Step(s, i).g, s.threads[j])
  {
    assert ThreadOk(s.g, s.threads[i]) && ThreadOk(s.g, s.threads[j]);
    if IsCarrying(s.threads[i]) && IsCarrying(s.threads[j]) {
      TwoCarriers(s.threads, i, j);
    }
    hide Count, ThreadsOk;
    Share(s, i, IsInside);
    Share(s, i, IsCarrying);
    Share(s, j, IsCarrying);
  }

  lemma {:induction false} TwoCarriers(ts: seq<Thread>, i: nat, j: nat)
    requires i < |ts| && j < |ts| && i != j && IsCarrying(ts[i]) && IsCarrying(ts[j])
    ensures Count(IsCarrying, ts) > 1
  {
    CountUpdate(IsCarrying, ts, i, Answered);
    CountZero(IsCarrying, ts[i := Answered]);
    assert IsCarrying(ts[i := Answered][j]);
  }

  lemma StepKeeps(s: System, i: nat)
    requires Inv(s) && i < |s.threads|
    ensures Inv(Step(s, i)) && Region(s.g, s.threads[i]).asserts
  {
    StepCounters(s, i);
    StepStatus(s, i);
    StepRelease(s, i);
    StepOwn(s, i);
    var n := Step(s, i);
    forall j | 0 <= j < |n.threads|
      ensures ThreadOk(n.g, n.threads[j])
    {
      if j != i {
        StepKeepsOthers(s, i, j);
      }
    }
  }

  lemma InitHolds(s: System)
    requires Init(s)
    ensures Inv(s)
  {
    CountZero(IsHolding, s.threads);
    CountZero(IsInside, s.threads);
    CountZero(IsCarrying, s.threads);
    CountZero(HasReleased, s.threads);
  }

  lemma Tail(s: System, schedule: seq<nat>)
    requires IsSchedule(s, schedule) && schedule != []
    ensures schedule[0] < |s.threads| && IsSchedule(Step(s, schedule[0]), schedule[1..])
    ensures Run(s, schedule) == Run(Step(s, schedule[0]), schedule[1..])
  {
    assert forall k :: 0 <= k < |schedule[1..]| ==> schedule[1..][k] == schedule[k + 1];
  }

  /** The invariant holds along every schedule, and with it every assertion in the code. */
  lemma {:induction false} RunKeeps(s: System, schedule: seq<nat>)
    requires Inv(s) && IsSchedule(s, schedule)
    ensures Inv(Run(s, schedule))
    decreases |schedule|
  {
    if schedule != [] {
      Tail(s, schedule);
      StepKeeps(s, schedule[0]);
      RunKeeps(Step(s, schedule[0]), schedule[1..]);
    }
  }

  // ---------------------------------------------------------------- safety over whole runs

  /**
   In every run from the opening on, NdisCloseAdapter is called at most once; while it is about to be
   called, and ever after, no thread holds the binding; and the assertions of the next region hold.
  */
  lemma CloseAdapterOnce(s: System, schedule: seq<nat>)
    requires Init(s) && IsSchedule(s, schedule)
    ensures var n := Run(s, schedule);
      && n.g.closeCalls <= 1
      && (n.g.closeCalls == 1 || (exists i :: 0 <= i < |n.threads| && IsCarrying(n.threads[i])) ==>
            forall i :: 0 <= i < |n.threads| ==> !IsHolding(n.threads[i]))
      && (forall i :: 0 <= i < |n.threads| ==> Region(n.g, n.threads[i]).asserts)
  {
    InitHolds(s);
    RunKeeps(s, schedule);
    var n := Run(s, schedule);
    CountZero(IsHolding, n.threads);
    CountZero(IsCarrying, n.threads);
    forall i | 0 <= i < |n.threads|
      ensures Region(n.g, n.threads[i]).asserts
    {
      StepKeeps(n, i);
    }
    if n.g.status == Unbinding {
      assert exists i :: 0 <= i < |n.threads| && IsCarrying(n.threads[i]);
      var i :| 0 <= i < |n.threads| && IsCarrying(n.threads[i]);
      assert ThreadOk(n.g, n.threads[i]);
    }
  }

  /** Every return from NPF_CloseBinding finds the instance unbound, and it stays so in every continuation. */
  lemma UnboundForever(s: System, before: seq<nat>, after: seq<nat>, i: nat)
    requires Init(s) && IsSchedule(s, before) && IsSchedule(s, after) && i < |s.threads|
    requires Run(s, before).threads[i].Closing? && Run(s, before).threads[i].at == Returned
    ensures Run(s, before).g.status == Unbound
    ensures Run(Run(s, before), after).g.status == Unbound
  {
    InitHolds(s);
    RunKeeps(s, before);
    var n := Run(s, before);
    assert ThreadOk(n.g, n.threads[i]);
    StaysUnbound(n, after);
  }

  lemma {:induction false} StaysUnbound(s: System, schedule: seq<nat>)
    requires Inv(s) && IsSchedule(s, schedule) && s.g.status == Unbound
    ensures Run(s, schedule).g.status == Unbound
    decreases |schedule|
  {
    if schedule != [] {
      Tail(s, schedule);
      StepKeeps(s, schedule[0]);
      assert ThreadOk(s.g, s.threads[schedule[0]]);
      StaysUnbound(Step(s, schedule[0]), schedule[1..]);
    }
  }

  /**
   When a cleanup has come through both gates, about to release the resources, no IRP is in the
   instance, and none is in any state from then on.
  */
  lemma DrainBeforeRelease(s: System, before: seq<nat>, after: seq<nat>, i: nat, j: nat)
    requires Init(s) && IsSchedule(s, before) && IsSchedule(s, after) && i < |s.threads| && j < |s.threads|
    requires Run(s, before).threads[i] == Closing(Returned, true)
    ensures !IsInside(Run(s, before).threads[j])
    ensures !IsInside(Run(Run(s, before), after).threads[j])
  {
    InitHolds(s);
    RunKeeps(s, before);
    var n := Run(s, before);
    assert ThreadOk(n.g, n.threads[i]);
    CountZero(IsInside, n.threads);
    StaysDrained(n, after);
    RunKeeps(n, after);
    CountZero(IsInside, Run(n, after).threads);
  }

  lemma {:induction false} StaysDrained(s: System, schedule: seq<nat>)
    requires Inv(s) && IsSchedule(s, schedule) && s.g.closePending && s.g.pendingIrps == 0
    ensures Run(s, schedule).g.pendingIrps == 0
    decreases |schedule|
  {
    if schedule != [] {
      Tail(s, schedule);
      StepKeeps(s, schedule[0]);
      assert Step(s, schedule[0]).g.pendingIrps == 0 by {
        hide Count;
      }
      StaysDrained(Step(s, schedule[0]), schedule[1..]);
    }
  }

  // ---------------------------------------------------------------- the instance follows the steps

  /** Any schedule carried out on one instance; no assertion of the code fails on the way. */
  method Race(o: OpenInstance, threads: array<Thread>, schedule: seq<nat>)
    requires Inv(System(o.Now(), threads[..])) && IsSchedule(System(o.Now(), threads[..]), schedule)
    modifies o, threads
    ensures System(o.Now(), threads[..]) == Run(old(System(o.Now(), threads[..])), schedule)
    ensures Inv(System(o.Now(), threads[..]))
  {
    ghost var s0 := System(o.Now(), threads[..]);
    var k := 0;
    while k < |schedule|
      invariant k <= |schedule| && Inv(System(o.Now(), threads[..]))
      invariant |threads[..]| == |s0.threads| && IsSchedule(System(o.Now(), threads[..]), schedule[k..])
      invariant Run(System(o.Now(), threads[..]), schedule[k..]) == Run(s0, schedule)
    {
      ghost var s := System(o.Now(), threads[..]);
      var i := schedule[k];
      Tail(s, schedule[k..]);
      StepKeeps(s, i);
      var t := o.Advance(threads[i]);
      threads[i] := t;
      assert threads[..] == s.threads[i := t];
      k := k + 1;
    }
  }
}
