/**
 What every interleaving keeps: the invariant of RingSystem holds after every step of every run,
 so the reader's output is the log of accepted packets, in sequence-number order, byte for byte.
*/
module RingSafety {
  import opened Machine
  import opened RingImage
  import opened RingSystem

  // ---------------------------------------------------------------- steps of the producers

  lemma PendingFrame(h: History, rings: seq<Ring>, i: nat, r: Ring)
    requires AllQueues(h, rings) && AllCovered(h, rings)
    requires i < |rings| && Pending(r) == Pending(rings[i])
    ensures AllQueues(h, rings[i := r]) && AllCovered(h, rings[i := r])
  {
    assert QueueOk(h, i, rings[i]);
    var rings' := rings[i := r];
    forall n | |h.delivered| <= n < |h.log|
      ensures Covered(h, rings', n)
    {
      assert Covered(h, rings, n);
    }
  }

  lemma RingsFrame(size: nat, rings: seq<Ring>, i: nat, r: Ring)
    requires AllRings(size, rings) && i < |rings| && RingOk(size, r)
    ensures AllRings(size, rings[i := r])
  {
  }

  /** A step on ring `i` that leaves the records it still has to hand over, and its acceptances. */
  lemma LocalKeeps(s: System, i: nat, r: Ring)
    requires Inv(s) && i < |s.rings| && RingOk(s.size, r)
    requires Pending(r) == Pending(s.rings[i]) && |s.rings[i].q| <= |r.q|
    requires r.counters.accepted == s.rings[i].counters.accepted
    ensures Inv(s.(rings := s.rings[i := r]))
  {
    hide U32At, Holds, Chain, Span;
    TotalUpdate(Held, s.rings, i, r);
    TotalUpdate(Accepted, s.rings, i, r);
    RingsFrame(s.size, s.rings, i, r);
    PendingFrame(s.hist, s.rings, i, r);
    if |s.rings[i].q| > 0 {
      assert Pending(r)[0] == r.q[0] && Pending(s.rings[i])[0] == s.rings[i].q[0];
    }
  }

  /** Receiving, rejecting, dropping, admitting and abandoning move counters and the reservation only. */
  lemma CountKeeps(s: System, step: Step)
    requires Inv(s) && Enabled(s, step)
    requires step.Receive? || step.Reject? || step.Drop? || step.Admit? || step.Abandon?
    ensures Inv(Apply(s, step))
  {
    hide U32At, Holds, Chain, Span;
    assert RingOk(s.size, s.rings[step.cpu]);
    LocalKeeps(s, step.cpu, Apply(s, step).rings[step.cpu]);
  }

  lemma WriteKeeps(s: System, i: nat, img: seq<Byte>)
    requires Inv(s) && Enabled(s, Write(i, img))
    ensures Inv(Apply(s, Write(i, img)))
  {
    hide U32At, Holds, Chain, Span, HeaderAt;
    var r := s.rings[i];
    assert RingOk(s.size, r);
    WritesStayFree(r.img, img, r.C, r.P, r.free, r.q, Reservation(r.prod));
    LocalKeeps(s, i, r.(img := img));
  }

  /** Publishing moves the numbered record into the queue: what is still to be handed over stays. */
  lemma PublishKeepsInv(s: System, i: nat)
    requires Inv(s) && Enabled(s, Publish(i))
    ensures Inv(Apply(s, Publish(i)))
  {
    hide U32At, Holds, Chain, Span;
    var r := s.rings[i];
    assert RingOk(s.size, r);
    PublishKeeps(r.img, r.C, r.P, r.free, r.q, r.prod.e);
    LocalKeeps(s, i, Apply(s, Publish(i)).rings[i]);
  }

  lemma AssignRing(s: System, i: nat, sec: U32, usec: U32)
    requires Inv(s) && Enabled(s, Assign(i, sec, usec))
    ensures var r := Apply(s, Assign(i, sec, usec)).rings[i];
            RingOk(s.size, r) && Pending(r) == Pending(s.rings[i]) + [r.prod.e]
  {
    assert RingOk(s.size, s.rings[i]);
  }

  lemma AssignTotals(s: System, i: nat, sec: U32, usec: U32)
    requires Enabled(s, Assign(i, sec, usec))
    ensures var t := Apply(s, Assign(i, sec, usec));
            && Total(Held, t.rings) == Total(Held, s.rings) + 1
            && Total(Accepted, t.rings) == Total(Accepted, s.rings) + 1
  {
    hide Total;
    var t := Apply(s, Assign(i, sec, usec));
    TotalUpdate(Held, s.rings, i, t.rings[i]);
    TotalUpdate(Accepted, s.rings, i, t.rings[i]);
  }

  lemma AssignHistory(s: System, i: nat, sec: U32, usec: U32)
    requires Inv(s) && Enabled(s, Assign(i, sec, usec))
    ensures HistoryOk(Apply(s, Assign(i, sec, usec)))
  {
    hide Total, AllRings, AllQueues, AllCovered, ReaderOk;
    var t := Apply(s, Assign(i, sec, usec));
    AssignTotals(s, i, sec, usec);
    NextLowBits(|s.hist.log|);
    assert t.hist.log[..|s.hist.delivered|] == s.hist.log[..|s.hist.delivered|];
  }

  /** Numbering a packet appends it to the log and to what its CPU has to hand over. */
  lemma AssignKeeps(s: System, i: nat, sec: U32, usec: U32)
    requires Inv(s) && Enabled(s, Assign(i, sec, usec))
    ensures Inv(Apply(s, Assign(i, sec, usec)))
  {
    hide U32At, Holds, Chain, Span;
    var t := Apply(s, Assign(i, sec, usec));
    var r := t.rings[i];
    AssignRing(s, i, sec, usec);
    AssignHistory(s, i, sec, usec);
    RingsFrame(s.size, s.rings, i, r);
    AssignQueues(s, t, i, r);
    AssignCovers(s, t, i, r);
  }

  lemma LogGrows(h: History, h': History, i: nat, q: seq<Entry>)
    requires AllTracked(h, i, q) && |h'.log| == |h'.owner|
    requires h.log <= h'.log && h.owner <= h'.owner && h.delivered == h'.delivered
    ensures AllTracked(h', i, q)
    ensures forall k :: 0 <= k < |q| ==> q[k].idx < |h.log|
  {
    forall k | 0 <= k < |q|
      ensures Tracked(h', i, q[k]) && q[k].idx < |h.log|
    {
      assert Tracked(h, i, q[k]);
    }
  }

  lemma AssignQueues(s: System, t: System, i: nat, r: Ring)
    requires AllQueues(s.hist, s.rings) && i < |s.rings|
    requires |s.hist.log| == |s.hist.owner| && |s.hist.delivered| <= |s.hist.log|
    requires t.hist.owner == s.hist.owner + [i] && t.hist.delivered == s.hist.delivered
    requires t.rings == s.rings[i := r] && r.prod.Numbered? && r.prod.e.idx == |s.hist.log|
    requires t.hist.log == s.hist.log + [r.prod.e.pkt]
    requires Pending(r) == Pending(s.rings[i]) + [r.prod.e]
    ensures AllQueues(t.hist, t.rings)
  {
    forall j | 0 <= j < |t.rings|
      ensures QueueOk(t.hist, j, t.rings[j])
    {
      assert QueueOk(s.hist, j, s.rings[j]);
      LogGrows(s.hist, t.hist, j, Pending(s.rings[j]));
    }
  }

  lemma AssignCovers(s: System, t: System, i: nat, r: Ring)
    requires AllCovered(s.hist, s.rings) && i < |s.rings|
    requires |s.hist.log| == |s.hist.owner| && |t.hist.log| == |s.hist.log| + 1
    requires t.hist.owner == s.hist.owner + [i] && t.hist.delivered == s.hist.delivered
    requires t.rings == s.rings[i := r] && r.prod.Numbered? && r.prod.e.idx == |s.hist.log|
    requires Pending(r) == Pending(s.rings[i]) + [r.prod.e]
    ensures AllCovered(t.hist, t.rings)
  {
    forall n | |t.hist.delivered| <= n < |t.hist.log|
      ensures Covered(t.hist, t.rings, n)
    {
      if n < |s.hist.log| {
        assert Covered(s.hist, s.rings, n);
        var o := s.hist.owner[n];
        var k :| 0 <= k < |Pending(s.rings[o])| && Pending(s.rings[o])[k].idx == n;
        assert Pending(t.rings[o])[k].idx == n;
      } else {
        assert Pending(r)[|Pending(r)| - 1].idx == n;
      }
    }
  }

  // ---------------------------------------------------------------- steps of the reader

  /** Only the reader's own variables change. */
  lemma SameRings(s: System, reader: Reader, current: nat, count: nat)
    requires Inv(s) && current < |s.rings|
    requires ReaderOk(s.(reader := reader, current := current, count := count))
    ensures Inv(s.(reader := reader, current := current, count := count))
  {
  }

  lemma StartFindsNext(s: System)
    requires Inv(s) && Enabled(s, Start)
    ensures ReaderOk(Apply(s, Start))
  {
    hide U32At, Holds, Chain, Span;
    HitMeansNext(s, s.current);
  }

  lemma StartKeeps(s: System)
    requires Inv(s) && Enabled(s, Start)
    ensures Inv(Apply(s, Start))
  {
    StartFindsNext(s);
    SameRings(s, Apply(s, Start).reader, s.current, s.count);
  }

  /** The byte the reader fetches is the packet's, whatever the producers write meanwhile. */
  lemma ReadByteKeeps(s: System)
    requires Inv(s) && Enabled(s, ReadByte)
    ensures Inv(Apply(s, ReadByte))
  {
    var r := s.rings[s.current];
    assert RingOk(s.size, r);
    var e, k := r.q[0], |s.reader.got|;
    assert Nth(r.img, r.C, HEADER + k) == e.pkt.data[k];
    assert e.pkt.data[..k] + [e.pkt.data[k]] == e.pkt.data[..k + 1];
    SameRings(s, Apply(s, ReadByte).reader, s.current, s.count);
  }

  /** The record given back is the oldest one nobody has read; all others stay tracked. */
  lemma ReleaseKeepsQueue(h: History, h': History, i: nat, q: seq<Entry>, q': seq<Entry>, popped: bool)
    requires AllTracked(h, i, q) && Ascending(q)
    requires h'.log == h.log && h'.owner == h.owner && |h'.delivered| == |h.delivered| + 1
    requires if popped then |q| > 0 && q' == q[1..] && q[0].idx == |h.delivered| else q' == q
    requires !popped ==> |h.delivered| < |h.log| == |h.owner| && h.owner[|h.delivered|] != i
    ensures AllTracked(h', i, q') && Ascending(q')
  {
    forall k | 0 <= k < |q'|
      ensures Tracked(h', i, q'[k])
    {
      var l := if popped then k + 1 else k;
      assert q'[k] == q[l];
      assert Tracked(h, i, q[l]);
      assert q[l].idx != |h.delivered|;
    }
  }

  lemma ReleaseQueues(h: History, h': History, rings: seq<Ring>, i: nat, r: Ring)
    requires AllQueues(h, rings) && i < |rings|
    requires h'.log == h.log && h'.owner == h.owner && |h'.delivered| == |h.delivered| + 1
    requires |Pending(rings[i])| > 0 && Pending(r) == Pending(rings[i])[1..]
    requires Pending(rings[i])[0].idx == |h.delivered|
    ensures AllQueues(h', rings[i := r])
  {
    assert QueueOk(h, i, rings[i]);
    assert Tracked(h, i, Pending(rings[i])[0]);
    var rings' := rings[i := r];
    forall j | 0 <= j < |rings'|
      ensures QueueOk(h', j, rings'[j])
    {
      assert QueueOk(h, j, rings[j]);
      ReleaseKeepsQueue(h, h', j, Pending(rings[j]), Pending(rings'[j]), i == j);
    }
  }

  lemma ReleaseCovers(h: History, h': History, rings: seq<Ring>, i: nat, r: Ring)
    requires AllCovered(h, rings) && i < |rings|
    requires h'.log == h.log && h'.owner == h.owner && |h'.delivered| == |h.delivered| + 1
    requires |Pending(rings[i])| > 0 && Pending(r) == Pending(rings[i])[1..]
    requires Pending(rings[i])[0].idx == |h.delivered|
    ensures AllCovered(h', rings[i := r])
  {
    var rings' := rings[i := r];
    forall n | |h'.delivered| <= n < |h'.log|
      ensures Covered(h', rings', n)
    {
      assert Covered(h, rings, n);
      if h.owner[n] == i {
        var k :| 0 <= k < |Pending(rings[i])| && Pending(rings[i])[k].idx == n;
        assert Pending(r)[k - 1].idx == n;
      }
    }
  }

  /** The reader's copy is the whole of the packet whose number comes next. */
  lemma ReleaseCopy(s: System)
    requires Inv(s) && Enabled(s, Release)
    ensures var r := s.rings[s.current];
            && Pending(r)[0] == r.q[0] && r.q[0].idx == |s.hist.delivered| < |s.hist.log|
            && s.hist.log[|s.hist.delivered|] == r.q[0].pkt == Packet(s.reader.hdr, s.reader.got)
  {
    hide U32At, Span;
    var r := s.rings[s.current];
    assert RingOk(s.size, r) && QueueOk(s.hist, s.current, r);
    assert Holds(r.img, r.C, r.q[0]);
    assert Tracked(s.hist, s.current, Pending(r)[0]);
  }

  /** The record it came from is given back whole. */
  lemma ReleaseRing(s: System)
    requires Inv(s) && Enabled(s, Release)
    ensures var r, r' := s.rings[s.current], Apply(s, Release).rings[s.current];
            RingOk(s.size, r') && Pending(r') == Pending(r)[1..]
  {
    hide U32At, Holds, Inv, RingInv, HeaderAt, Next, Increment, Congruent;
    assert RingOk(s.size, s.rings[s.current]) by {
      RingIsOk(s, s.current);
    }
    ReleaseCopy(s);
    TakenRingOk(s.size, s.rings[s.current]);
  }

  lemma RingIsOk(s: System, i: nat)
    requires Inv(s) && i < |s.rings|
    ensures RingOk(s.size, s.rings[i])
  {
  }

  /** A ring whose first record has been read and given back. */
  lemma TakenRingOk(size: nat, r: Ring)
    requires RingOk(size, r) && r.q != []
    ensures var n := |r.q[0].pkt.data|;
            && Fits(|r.img|, r.C, n)
            && var r' := r.(C := Next(|r.img|, r.C, n), free := r.free + Increment(|r.img|, r.C, n), q := r.q[1..]);
               RingOk(size, r') && Pending(r') == Pending(r)[1..]
  {
    hide U32At, Holds, HeaderAt, Next, Increment, Congruent;
    FreeIsDistance(r.img, r.C, r.P, r.free, r.q);
    ReleaseKeeps(r.img, r.C, r.P, r.free, r.q);
  }

  lemma ReleaseHistory(s: System)
    requires Inv(s) && Enabled(s, Release)
    ensures HistoryOk(Apply(s, Release))
  {
    hide U32At, Holds, Chain, Span, RingOk, Tracked, Covered, Next, Increment, HeaderAt;
    var t, d := Apply(s, Release), |s.hist.delivered|;
    ReleaseCopy(s);
    ReleaseRing(s);
    TotalUpdate(Held, s.rings, s.current, t.rings[s.current]);
    TotalUpdate(Accepted, s.rings, s.current, t.rings[s.current]);
    NextLowBits(d);
    assert t.hist.delivered == s.hist.log[..d] + [s.hist.log[d]] == s.hist.log[..d + 1];
  }

  lemma ReleaseKeepsInv(s: System)
    requires Inv(s) && Enabled(s, Release)
    ensures Inv(Apply(s, Release))
  {
    var t, i := Apply(s, Release), s.current;
    ReleaseCopy(s);
    ReleaseRing(s);
    ReleaseHistory(s);
    RingsFrame(s.size, s.rings, i, t.rings[i]);
    ReleaseQueues(s.hist, t.hist, s.rings, i, t.rings[i]);
    ReleaseCovers(s.hist, t.hist, s.rings, i, t.rings[i]);
  }

  // ---------------------------------------------------------------- every step, every run

  lemma StepKeeps(s: System, step: Step)
    requires Inv(s) && Enabled(s, step)
    ensures Inv(Apply(s, step))
  {
    hide U32At, Holds, Chain, Span;
    match step
    case Receive(_) => CountKeeps(s, step);
    case Reject(_) => CountKeeps(s, step);
    case Drop(_, _) => CountKeeps(s, step);
    case Admit(_, _, _) => CountKeeps(s, step);
    case Write(i, img) => WriteKeeps(s, i, img);
    case Abandon(_) => CountKeeps(s, step);
    case Assign(i, sec, usec) => AssignKeeps(s, i, sec, usec);
    case Publish(i) => PublishKeepsInv(s, i);
    case Miss => SameRings(s, s.reader, Apply(s, Miss).current, s.count + 1);
    case Start => StartKeeps(s);
    case ReadByte => ReadByteKeeps(s);
    case Release => ReleaseKeepsInv(s);
    case EndRead => SameRings(s, s.reader, 0, 0);
  }

  lemma InitHolds(s: System)
    requires Init(s)
    ensures Inv(s)
  {
    forall i | 0 <= i < |s.rings|
      ensures RingOk(s.size, s.rings[i]) && QueueOk(s.hist, i, s.rings[i])
      ensures Held(s.rings[i]) == 0 && Accepted(s.rings[i]) == 0
    {
      assert FreshRing(s.size, s.rings[i]);
    }
    TotalZero(Held, s.rings);
    TotalZero(Accepted, s.rings);
  }

  /** `run` is a legal run from `s` that ends in `t`. */
  ghost predicate Runs(s: System, run: seq<Step>, t: System)
    decreases |run|
  {
    if |run| == 0 then t == s
    else Enabled(s, run[0]) && Runs(Apply(s, run[0]), run[1..], t)
  }

  lemma {:induction false} RunKeeps(s: System, run: seq<Step>, t: System)
    requires Inv(s) && Runs(s, run, t)
    ensures Inv(t)
    decreases |run|
  {
    if |run| > 0 {
      StepKeeps(s, run[0]);
      RunKeeps(Apply(s, run[0]), run[1..], t);
    }
  }

  /** Steps only ever append to the log, and later deliveries follow earlier ones. */
  lemma {:induction false} HistoryGrows(s: System, run: seq<Step>, t: System)
    requires Runs(s, run, t)
    ensures s.hist.log <= t.hist.log && s.hist.owner <= t.hist.owner && s.hist.delivered <= t.hist.delivered
    decreases |run|
  {
    if |run| > 0 {
      HistoryGrows(Apply(s, run[0]), run[1..], t);
    }
  }

  /**
   Global FIFO. After any interleaving of any number of producers with the reader, from a fresh
   instance, the packets delivered are exactly the first ones accepted, in the order of their
   sequence numbers, each once, header and payload intact.
  */
  lemma GlobalFifo(s: System, run: seq<Step>, t: System)
    requires Init(s) && Runs(s, run, t)
    ensures t.hist.delivered <= t.hist.log
    ensures t.writerSN == |t.hist.log| % TWO32 && t.readerSN == |t.hist.delivered| % TWO32
  {
    InitHolds(s);
    RunKeeps(s, run, t);
  }

  /** Ring accounting in every reachable state, for every CPU, however the steps interleave. */
  lemma RingAccounting(s: System, run: seq<Step>, t: System, i: nat)
    requires Init(s) && Runs(s, run, t) && i < |t.rings|
    ensures var r := t.rings[i];
            && |r.img| == t.size && r.P + HEADER <= t.size && r.C + HEADER <= t.size
            && 0 <= r.free <= t.size && Congruent(t.size, r.P + r.free, r.C)
            && (r.free == t.size <==> r.q == [])
            && (r.P == r.C <==> r.free == 0 || r.free == t.size)
  {
    InitHolds(s);
    RunKeeps(s, run, t);
    var r := t.rings[i];
    assert RingOk(t.size, r);
    FreeIsDistance(r.img, r.C, r.P, r.free, r.q);
  }

  /** Conservation, per CPU and over all of them, in every reachable state. */
  lemma Conservation(s: System, run: seq<Step>, t: System)
    requires Init(s) && Runs(s, run, t)
    ensures forall i :: 0 <= i < |t.rings| ==>
              var c := t.rings[i].counters;
              c.received == c.accepted + c.dropped + c.rejected + Undecided(t.rings[i])
    ensures Total(Accepted, t.rings) == |t.hist.log| == |t.hist.delivered| + Total(Held, t.rings)
  {
    InitHolds(s);
    RunKeeps(s, run, t);
    forall i | 0 <= i < |t.rings|
      ensures RingOk(t.size, t.rings[i])
    {
    }
  }

  // ---------------------------------------------------------------- the merge is complete

  /** Packets published in some ring. */
  ghost predicate AllEmpty(s: System) {
    forall i :: 0 <= i < |s.rings| ==> s.rings[i].free == s.size
  }

  ghost predicate MidPublish(s: System) {
    exists i :: 0 <= i < |s.rings| && s.rings[i].prod.Numbered?
  }

  /**
   With no producer between taking its number and publishing, some CPU holds the packet the reader
   wants unless every ring is empty; so a full round of misses means there is nothing left.
  */
  lemma MergeComplete(s: System)
    requires Inv(s) && !MidPublish(s)
    ensures AllEmpty(s) <==> forall i :: 0 <= i < |s.rings| ==> !Hit(s, i)
    ensures AllEmpty(s) <==> |s.hist.delivered| == |s.hist.log|
  {
    if |s.hist.delivered| < |s.hist.log| {
      var h := s.hist.owner[|s.hist.delivered|];
      assert Covered(s.hist, s.rings, |s.hist.delivered|);
      HeadIsNext(s, h);
      HitMeansNext(s, h);
    }
    forall i | 0 <= i < |s.rings|
      ensures |s.hist.delivered| == |s.hist.log| ==> s.rings[i].free == s.size
    {
      var r := s.rings[i];
      assert RingOk(s.size, r) && QueueOk(s.hist, i, r);
      FreeIsDistance(r.img, r.C, r.P, r.free, r.q);
      if |r.q| > 0 {
        assert Tracked(s.hist, i, Pending(r)[0]);
      }
    }
  }

  /** What the reader hits is the packet logged under the next number. */
  lemma HitIsLogged(s: System, i: nat)
    requires Inv(s) && i < |s.rings| && Hit(s, i)
    ensures var q, d := s.rings[i].q, |s.hist.delivered|;
            |q| > 0 && d < |s.hist.log| && q[0].pkt == s.hist.log[d]
  {
    hide Hit, RingOk;
    var r := s.rings[i];
    assert QueueOk(s.hist, i, r);
    HitMeansNext(s, i);
    assert Pending(r)[0] == r.q[0];
    assert Tracked(s.hist, i, Pending(r)[0]);
  }

  /** If the next packet is queued in ring `h`, it is first there. */
  lemma HeadIsNext(s: System, h: nat)
    requires Inv(s) && h < |s.rings| && !s.rings[h].prod.Numbered?
    requires Present(s.rings[h], |s.hist.delivered|)
    ensures |s.rings[h].q| > 0 && s.rings[h].q[0].idx == |s.hist.delivered|
  {
    var r := s.rings[h];
    var k :| 0 <= k < |Pending(r)| && Pending(r)[k].idx == |s.hist.delivered|;
    assert QueueOk(s.hist, h, r);
    assert Tracked(s.hist, h, Pending(r)[0]);
  }

  /** Places the round robin still has to visit before it comes to CPU `h`. */
  function Ahead(n: nat, current: nat, h: nat): nat
    requires current < n && h < n
  {
    if current <= h then h - current else h + n - current
  }

  predicate MissesOnly(run: seq<Step>) {
    forall k :: 0 <= k < |run| ==> run[k] !in {Start, ReadByte, Release, EndRead}
  }

  function Misses(run: seq<Step>): nat {
    if |run| == 0 then 0 else (if run[0] == Miss then 1 else 0) + Misses(run[1..])
  }

  /** Producers only append to queues, and never touch the reader's side. */
  lemma ProducersAppend(s: System, step: Step, h: nat)
    requires h < |s.rings| && Enabled(s, step) && step !in {Start, ReadByte, Release, EndRead}
    ensures var t := Apply(s, step);
            && |t.rings| == |s.rings| && s.rings[h].q <= t.rings[h].q
            && t.hist.delivered == s.hist.delivered && t.reader == s.reader
  {
  }

  /** A ready head stays ready until the reader takes it, whatever producers do. */
  lemma HitPersists(s: System, step: Step, h: nat)
    requires Inv(s) && h < |s.rings| && Hit(s, h)
    requires Enabled(s, step) && step !in {Start, ReadByte, Release, EndRead}
    ensures Inv(Apply(s, step)) && |Apply(s, step).rings| == |s.rings| && Hit(Apply(s, step), h)
  {
    var t := Apply(s, step);
    StepKeeps(s, step);
    ProducersAppend(s, step, h);
    HitMeansNext(s, h);
    HitMeansNext(t, h);
  }

  lemma RoundRobin(n: nat, current: nat)
    requires current < n
    ensures (current + 1) % n == if current + 1 == n then 0 else current + 1
  {
  }

  /** A miss brings the round robin one place closer to the ring it has to find. */
  lemma MissApproaches(s: System, step: Step, h: nat)
    requires s.current < |s.rings| && h < |s.rings| && Hit(s, h)
    requires Enabled(s, step) && step !in {Start, ReadByte, Release, EndRead}
    ensures var t := Apply(s, step);
            && t.current < |s.rings|
            && Ahead(|s.rings|, t.current, h) + (if step == Miss then 1 else 0) == Ahead(|s.rings|, s.current, h)
  {
    if step == Miss {
      RoundRobin(|s.rings|, s.current);
    }
  }

  /**
   No packet is passed over: once the next packet is published on CPU `h`, the reader misses at
   most the CPUs between its place and `h`, fewer than NCpu, while producers go on interleaving.
  */
  lemma {:induction false} ReadyIsFound(s: System, run: seq<Step>, t: System, h: nat)
    requires Inv(s) && h < |s.rings| && Hit(s, h)
    requires Runs(s, run, t) && MissesOnly(run)
    ensures |t.rings| == |s.rings| && Hit(t, h)
    ensures Misses(run) <= Ahead(|s.rings|, s.current, h) < |s.rings|
    decreases |run|
  {
    hide U32At, Holds, Chain, Span;
    if |run| > 0 {
      HitPersists(s, run[0], h);
      MissApproaches(s, run[0], h);
      ReadyIsFound(Apply(s, run[0]), run[1..], t, h);
    }
  }

  /** The round robin counts its misses, and each brings it one place closer to `h`. */
  lemma {:induction false} RoundGoesOn(s: System, run: seq<Step>, t: System, h: nat)
    requires Inv(s) && h < |s.rings| && Hit(s, h)
    requires Runs(s, run, t) && MissesOnly(run)
    ensures |t.rings| == |s.rings| && t.current < |t.rings| && t.reader == s.reader
    ensures t.count == s.count + Misses(run)
    ensures Ahead(|t.rings|, t.current, h) + Misses(run) == Ahead(|s.rings|, s.current, h)
    decreases |run|
  {
    hide U32At, Holds, Chain, Span, Hit, Inv, Ahead;
    LooksSomewhere(s);
    if |run| > 0 {
      var u := Apply(s, run[0]);
      HitPersists(s, run[0], h);
      MissApproaches(s, run[0], h);
      ProducersAppend(s, run[0], h);
      CountsMisses(s, run[0]);
      RoundGoesOn(u, run[1..], t, h);
    }
  }

  lemma LooksSomewhere(s: System)
    requires Inv(s)
    ensures s.current < |s.rings|
  {
  }

  lemma CountsMisses(s: System, step: Step)
    requires Enabled(s, step) && step !in {Start, ReadByte, Release, EndRead}
    ensures Apply(s, step).count == s.count + if step == Miss then 1 else 0
  {
  }

  /**
   A reader that begins a round while CPU `h` has the next packet takes a packet in that round: however
   producers interleave, its count of misses stays below NCpu, it can always look at one more ring, and
   when it comes to `h` the ring is still a hit.
   */
  lemma StartIsReached(s: System, run: seq<Step>, t: System, h: nat)
    requires Inv(s) && s.reader.Scanning? && s.count == 0 && h < |s.rings| && Hit(s, h)
    requires Runs(s, run, t) && MissesOnly(run)
    ensures t.count == Misses(run) < |t.rings| && t.current < |t.rings|
    ensures Enabled(t, if Hit(t, t.current) then Start else Miss)
    ensures Misses(run) == Ahead(|s.rings|, s.current, h) ==> t.current == h && Enabled(t, Start)
  {
    hide Hit, Runs;
    RoundGoesOn(s, run, t, h);
    ReadyIsFound(s, run, t, h);
  }

  /** No ring the reader looked at since it last took a packet had the next one. */
  ghost predicate RoundMissed(s: System) {
    && s.current < |s.rings|
    && forall i :: 0 <= i < |s.rings| && Ahead(|s.rings|, s.current, i) + s.count >= |s.rings| ==> !Hit(s, i)
  }

  lemma MissKeepsRound(s: System)
    requires RoundMissed(s) && Enabled(s, Miss)
    ensures RoundMissed(Apply(s, Miss))
  {
    hide Hit;
    var t, n := Apply(s, Miss), |s.rings|;
    RoundRobin(n, s.current);
    forall i | 0 <= i < n && Ahead(n, t.current, i) + t.count >= n
      ensures !Hit(t, i)
    {
      assert Hit(t, i) == Hit(s, i) by {
        SameHit(s, t, i);
      }
    }
  }

  lemma SameHit(s: System, t: System, i: nat)
    requires i < |s.rings| && t == s.(current := t.current, count := t.count)
    ensures Hit(t, i) == Hit(s, i)
  {
  }

  /** The reader never gets stuck in the middle of a packet. */
  lemma ReaderNeverStuck(s: System)
    requires Inv(s) && s.reader.Copying?
    ensures Enabled(s, if |s.reader.got| < s.reader.hdr.caplen then ReadByte else Release)
  {
    assert RingOk(s.size, s.rings[s.current]);
  }
}
