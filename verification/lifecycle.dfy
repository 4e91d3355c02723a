/**
 The two gates of an open instance. IRP threads enter the instance and then, any number of times, the
 binding to the adapter; an IRP cleanup closes both gates and releases the resources, and NDIS unbinds
 close the binding. One step is one region that a thread executes under the spin lock of a gate.
*/
module Lifecycle {

  datatype BindingStatus = Unbound | Bound | Unbinding

  /** `closeCalls` counts the calls of NdisCloseAdapter, `releases` those that free the resources. */
  datatype Gates = Gates(
    status: BindingStatus, usage: nat, pendingIrps: nat, closePending: bool, closeCalls: nat, releases: nat)

  const OPENED := Gates(Bound, 0, 0, false, 0, 0)

  /** Where a thread stands in NPF_CloseBinding. */
  datatype CloseAt =
    | WaitUsage          // before the first test, or asleep in the loop on the usage counter
    | WaitUnbinding      // asleep in the loop on the binding status
    | Issue              // about to call NdisCloseAdapter
    | AwaitNdis          // NdisCloseAdapter called, its completion awaited
    | Conclude           // about to set the status
    | Returned

  /** `calls` is how many more times an IRP thread will ask for the binding. */
  datatype Thread =
    | Arriving(calls: nat)
    | Working(calls: nat)
    | Holding(calls: nat)
    | Answered
    | CleaningUp
    | Draining
    | Closing(at: CloseAt, cleanup: bool)
    | Finished(cleanup: bool)

  /** `asserts` says whether the assertions in the region hold. */
  datatype Effect = Effect(g: Gates, t: Thread, asserts: bool)

  function Region(g: Gates, t: Thread): Effect {
    match t
    case Arriving(n) =>
      if g.closePending then Effect(g, Answered, true)
      else Effect(g.(pendingIrps := g.pendingIrps + 1), Working(n), true)
    case Working(n) =>
      if n == 0 then
        if g.pendingIrps > 0 then Effect(g.(pendingIrps := g.pendingIrps - 1), Answered, true)
        else Effect(g, t, false)
      else if g.status != Bound then Effect(g, Working(n - 1), true)
      else Effect(g.(usage := g.usage + 1), Holding(n - 1), true)
    case Holding(n) =>
      if g.usage > 0 && g.status == Bound then Effect(g.(usage := g.usage - 1), Working(n), true)
      else Effect(g, t, false)
    case Answered => Effect(g, t, true)
    case CleaningUp =>
      Effect(g.(closePending := true), if g.pendingIrps > 0 then Draining else Closing(WaitUsage, true), true)
    case Draining =>
      Effect(g, if g.pendingIrps > 0 then Draining else Closing(WaitUsage, true), true)
    case Closing(at, c) => CloseRegion(g, at, c)
    case Finished(_) => Effect(g, t, true)
  }

  function CloseRegion(g: Gates, at: CloseAt, cleanup: bool): Effect {
    match at
    case WaitUsage =>
      if g.usage > 0 then Effect(g, Closing(WaitUsage, cleanup), true) else StatusRegion(g, cleanup)
    case WaitUnbinding => StatusRegion(g, cleanup)
    case Issue => Effect(g.(closeCalls := g.closeCalls + 1), Closing(AwaitNdis, cleanup), true)
    case AwaitNdis => Effect(g, Closing(Conclude, cleanup), true)
    case Conclude => Effect(g.(status := Unbound), Closing(Returned, cleanup), true)
    case Returned => Effect(if cleanup then g.(releases := g.releases + 1) else g, Finished(cleanup), true)
  }

  /** From the test of the binding status on; the same lock is still held when the status is set. */
  function StatusRegion(g: Gates, cleanup: bool): Effect {
    match g.status
    case Unbinding => Effect(g, Closing(WaitUnbinding, cleanup), true)
    case Unbound => Effect(g, Closing(Returned, cleanup), true)
    case Bound => Effect(g.(status := Unbinding), Closing(Issue, cleanup), true)
  }

  // ---------------------------------------------------------------- any number of threads

  datatype System = System(g: Gates, threads: seq<Thread>)

  predicate IsStart(t: Thread) {
    t.Arriving? || t.CleaningUp? || t == Closing(WaitUsage, false)
  }

  predicate Init(s: System) {
    s.g == OPENED && forall i :: 0 <= i < |s.threads| ==> IsStart(s.threads[i])
  }

  function Step(s: System, i: nat): (n: System)
    requires i < |s.threads|
    ensures |n.threads| == |s.threads|
  {
    var e := Region(s.g, s.threads[i]);
    System(e.g, s.threads[i := e.t])
  }

  predicate IsSchedule(s: System, schedule: seq<nat>) {
    forall k :: 0 <= k < |schedule| ==> schedule[k] < |s.threads|
  }

  /** The threads take one region each, in the order of the schedule. */
  function Run(s: System, schedule: seq<nat>): (n: System)
    requires IsSchedule(s, schedule)
    ensures |n.threads| == |s.threads|
    decreases |schedule|
  {
    if schedule == [] then s
    else
      assert forall k :: 0 <= k < |schedule[1..]| ==> schedule[1..][k] == schedule[k + 1];
      Run(Step(s, schedule[0]), schedule[1..])
  }

  // ---------------------------------------------------------------- counting threads

  predicate IsHolding(t: Thread) { t.Holding? }

  predicate IsInside(t: Thread) { t.Working? || t.Holding? }

  /** The thread that carries the close of the adapter through. */
  predicate IsCarrying(t: Thread) {
    t.Closing? && (t.at == Issue || t.at == AwaitNdis || t.at == Conclude)
  }

  predicate HasReleased(t: Thread) { t == Finished(true) }

  /** A thread that answers an IRP cleanup, wherever it stands. */
  predicate IsCleanup(t: Thread) {
    t.CleaningUp? || t.Draining? || (t.Closing? && t.cleanup) || t == Finished(true)
  }

  predicate IsCloser(t: Thread) {
    t.CleaningUp? || t.Draining? || t.Closing? || t.Finished?
  }

  function Count(p: Thread -> bool, ts: seq<Thread>): nat {
    if ts == [] then 0 else Count(p, ts[1..]) + if p(ts[0]) then 1 else 0
  }

  lemma {:induction false} CountUpdate(p: Thread -> bool, ts: seq<Thread>, i: nat, t: Thread)
    requires i < |ts|
    ensures Count(p, ts[i := t]) + (if p(ts[i]) then 1 else 0) == Count(p, ts) + (if p(t) then 1 else 0)
  {
    var us := ts[i := t];
    if i == 0 {
      assert us[1..] == ts[1..];
    } else {
      assert us[1..] == ts[1..][i - 1 := t];
      CountUpdate(p, ts[1..], i - 1, t);
    }
  }

  lemma {:induction false} CountZero(p: Thread -> bool, ts: seq<Thread>)
    ensures Count(p, ts) == 0 <==> forall i :: 0 <= i < |ts| ==> !p(ts[i])
  {
    if ts != [] {
      CountZero(p, ts[1..]);
      assert forall i :: 1 <= i < |ts| ==> ts[i] == ts[1..][i - 1];
      assert forall i :: 0 <= i < |ts| - 1 ==> ts[1..][i] == ts[i + 1];
    }
  }

  // ---------------------------------------------------------------- the instance itself

  class OpenInstance {
    var AdapterBindingStatus: BindingStatus
    var AdapterHandleUsageCounter: nat
    var NumPendingIrps: nat
    var ClosePending: bool
    ghost var closeCalls: nat
    ghost var releases: nat

    ghost function Now(): Gates
      reads this
    {
      Gates(AdapterBindingStatus, AdapterHandleUsageCounter, NumPendingIrps, ClosePending, closeCalls, releases)
    }

    constructor ()
      ensures Now() == OPENED
    {
      NumPendingIrps := 0;
      ClosePending := false;
      AdapterBindingStatus := Bound;
      AdapterHandleUsageCounter := 0;
      closeCalls, releases := 0, 0;
    }

    method StartUsingBinding() returns (ok: bool)
      modifies this
      ensures ok <==> old(Now()).status == Bound
      ensures Now() == if ok then old(Now()).(usage := old(Now()).usage + 1) else old(Now())
    {
      if AdapterBindingStatus != Bound {
        return false;
      }
      AdapterHandleUsageCounter := AdapterHandleUsageCounter + 1;
      return true;
    }

    /** Its two assertions are what it requires. */
    method StopUsingBinding()
      requires AdapterHandleUsageCounter > 0 && AdapterBindingStatus == Bound
      modifies this
      ensures Now() == old(Now()).(usage := old(Now()).usage - 1)
    {
      AdapterHandleUsageCounter := AdapterHandleUsageCounter - 1;
    }

    method StartUsingOpenInstance() returns (ok: bool)
      modifies this
      ensures ok <==> !old(Now()).closePending
      ensures Now() == if ok then old(Now()).(pendingIrps := old(Now()).pendingIrps + 1) else old(Now())
    {
      if ClosePending {
        ok := false;
      } else {
        ok := true;
        NumPendingIrps := NumPendingIrps + 1;
      }
    }

    method StopUsingOpenInstance()
      requires NumPendingIrps > 0
      modifies this
      ensures Now() == old(Now()).(pendingIrps := old(Now()).pendingIrps - 1)
    {
      NumPendingIrps := NumPendingIrps - 1;
    }

    /** NPF_CloseOpenInstance up to the next point where it gives up the lock. */
    method CloseOpenInstance(first: bool) returns (t: Thread)
      modifies this
      ensures Region(old(Now()), if first then CleaningUp else Draining) == Effect(Now(), t, true)
    {
      if first {
        ClosePending := true;
      }
      if NumPendingIrps > 0 {
        return Draining;
      }
      return Closing(WaitUsage, true);
    }

    /** NPF_CloseBinding, and what its caller does next, up to the next point where the lock is free. */
    method CloseBinding(at: CloseAt, cleanup: bool) returns (t: Thread)
      modifies this
      ensures CloseRegion(old(Now()), at, cleanup) == Effect(Now(), t, true)
      ensures closeCalls == old(closeCalls) + (if at.Issue? then 1 else 0)
      ensures releases == old(releases) + (if at.Returned? && cleanup then 1 else 0)
      ensures at.Issue? ==> t == Closing(AwaitNdis, cleanup)
      ensures at.Conclude? ==> AdapterBindingStatus == Unbound && t == Closing(Returned, cleanup)
      ensures at.WaitUsage? || at.WaitUnbinding? ==>
        var free := at.WaitUnbinding? || AdapterHandleUsageCounter == 0;
        && (t == Closing(Issue, cleanup) <==> free && old(AdapterBindingStatus) == Bound)
        && (t == Closing(Returned, cleanup) <==> free && old(AdapterBindingStatus) == Unbound)
        && AdapterBindingStatus ==
          if t == Closing(Issue, cleanup) then Unbinding else old(AdapterBindingStatus)
    {
      match at
      case WaitUsage | WaitUnbinding =>
        if at == WaitUsage && AdapterHandleUsageCounter > 0 {
          return Closing(WaitUsage, cleanup);
        }
        if AdapterBindingStatus == Unbinding {
          return Closing(WaitUnbinding, cleanup);
        }
        if AdapterBindingStatus == Unbound {
          return Closing(Returned, cleanup);
        }
        AdapterBindingStatus := Unbinding;
        return Closing(Issue, cleanup);
      case Issue =>
        closeCalls := closeCalls + 1;
        return Closing(AwaitNdis, cleanup);
      case AwaitNdis =>
        return Closing(Conclude, cleanup);
      case Conclude =>
        AdapterBindingStatus := Unbound;
        return Closing(Returned, cleanup);
      case Returned =>
        if cleanup {
          releases := releases + 1;
        }
        return Finished(cleanup);
    }

    /** One region of one thread, carried out on the fields of the instance. */
    method Advance(t: Thread) returns (next: Thread)
      requires Region(Now(), t).asserts
      modifies this
      ensures Region(old(Now()), t) == Effect(Now(), next, true)
      ensures t.Arriving? ==>
        && next == (if old(ClosePending) then Answered else Working(t.calls))
        && NumPendingIrps == old(NumPendingIrps) + (if old(ClosePending) then 0 else 1)
      ensures t.Working? && t.calls > 0 ==>
        var bound := old(AdapterBindingStatus) == Bound;
        && next == (if bound then Holding(t.calls - 1) else Working(t.calls - 1))
        && AdapterHandleUsageCounter == old(AdapterHandleUsageCounter) + (if bound then 1 else 0)
      ensures t == Working(0) ==> next == Answered && NumPendingIrps == old(NumPendingIrps) - 1
      ensures t.Holding? ==>
        next == Working(t.calls) && AdapterHandleUsageCounter == old(AdapterHandleUsageCounter) - 1
      ensures t.CleaningUp? || t.Draining? ==>
        && next == (if NumPendingIrps > 0 then Draining else Closing(WaitUsage, true))
        && (ClosePending <==> t.CleaningUp? || old(ClosePending))
    {
      match t
      case Arriving(n) =>
        var ok := StartUsingOpenInstance();
        return if ok then Working(n) else Answered;
      case Working(n) =>
        if n == 0 {
          StopUsingOpenInstance();
          return Answered;
        }
        var ok := StartUsingBinding();
        return if ok then Holding(n - 1) else Working(n - 1);
      case Holding(n) =>
        StopUsingBinding();
        return Working(n);
      case CleaningUp =>
        next := CloseOpenInstance(true);
      case Draining =>
        next := CloseOpenInstance(false);
      case Closing(at, cleanup) =>
        next := CloseBinding(at, cleanup);
      case Answered | Finished(_) =>
        return t;
    }
  }
}
