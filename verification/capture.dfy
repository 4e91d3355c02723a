/**
 An open capture instance: the tap, the completion of a pending transfer, the read call, and the
 control requests that set up, reset and report on the buffers. Every call keeps the instance in
 step with a run of the transition system of RingSystem, kept in the ghost field `sys`.
*/
module Capture {
  import opened Machine
  import opened RingImage
  import opened RingWrite
  import opened RingSystem
  import opened RingSafety
  import opened RingRuns
  import opened CpuRing
  import opened UserBuffer

  datatype Outcome = Rejected | Dropped | Stored | Pending

  /** The object `c` is in the state `r` of the transition system. */
  ghost predicate Mirror(c: CpuPrivateData, size: nat, r: Ring)
    reads c, c.Buffer
  {
    && c.InBuffer(size) && c.Image(size) == r.img
    && c.P == r.P && c.C == r.C && c.Free == r.free
    && r.counters == RingSystem.Counters(c.Received, c.Accepted, c.Dropped, c.Rejected) && r.filtering == 0
    && MirrorTransfer(c, size, r)
  }

  /** A transfer is pending exactly when the producer holds a reservation. */
  ghost predicate MirrorTransfer(c: CpuPrivateData, size: nat, r: Ring)
    reads c
  {
    if c.TransferMdl1.None? then r.prod.Idle? && c.TransferMdl2.None?
    else
      && r.prod.Reserved? && |r.prod.data| < TWO32
      && c.front < r.prod.data
      && Described(size, c.P, c.NewP, c.TransferMdl1.value, c.TransferMdl2, |c.front|, |r.prod.data|)
      && HalfStored(r.img, c.P, c.front, |r.prod.data|, r.prod.datalen)
  }

  lemma NoTransfer(c: CpuPrivateData, size: nat, r: Ring)
    requires c.TransferMdl1.None?
    ensures MirrorTransfer(c, size, r) <==> r.prod.Idle? && c.TransferMdl2.None?
  {
  }

  /** A CPU whose packet has been stored and published is in the state after it. */
  lemma MirrorCompleted(c: CpuPrivateData, size: nat, r: Ring, sn: U32, idx: nat, pkt: Packet)
    requires c.InBuffer(size) && |r.img| == size && Fits(size, r.P, |pkt.data|)
    requires c.Image(size) == RecordImage(r.img, r.P, sn, pkt.hdr, pkt.data) && c.C == r.C
    requires c.P == Next(size, r.P, |pkt.data|) && c.Free == r.free - Increment(size, r.P, |pkt.data|)
    requires Tally(c) == Counted(r, 0, 1, 0, 0).counters && r.filtering == 0
    requires c.TransferMdl1.None? && c.TransferMdl2.None?
    ensures Mirror(c, size, Completed(r, sn, idx, pkt))
  {
    hide RecordImage, Next, Increment;
  }

  /** The counters of a CPU. */
  ghost function Tally(c: CpuPrivateData): Counters
    reads c
  {
    RingSystem.Counters(c.Received, c.Accepted, c.Dropped, c.Rejected)
  }

  function Bumped(t: Counters, received: nat, accepted: nat, dropped: nat, rejected: nat): Counters {
    RingSystem.Counters(t.received + received, t.accepted + accepted, t.dropped + dropped, t.rejected + rejected)
  }

  /** A read that began in `s0` has come to `s` by `run`, and `b` holds the packets handed out. */
  ghost predicate ReadSoFar(s0: System, run: seq<Step>, s: System, b: seq<Byte>) {
    && Runs(s0, run, s) && s.hist.log == s0.hist.log
    && s0.hist.delivered <= s.hist.delivered
    && Packed(b, s.hist.delivered[|s0.hist.delivered|..])
  }

  lemma ReadBegins(s: System)
    requires s.reader.Scanning?
    ensures ReadSoFar(s, [EndRead], Apply(s, EndRead), [])
  {
    RunsOne(s, EndRead);
  }

  lemma ReadTakes(
      s0: System, run: seq<Step>, s: System, b: seq<Byte>, run': seq<Step>, s': System, c: seq<Byte>, pkt: Packet)
    requires ReadSoFar(s0, run, s, b) && Runs(s, run', s') && IsPacket(c, pkt)
    requires s'.hist == s.hist.(delivered := s.hist.delivered + [pkt])
    ensures ReadSoFar(s0, run + run', s', b + c)
  {
    hide Runs, Packed, IsPacket;
    var d := |s0.hist.delivered|;
    RunsAppend(s0, run, s, run', s');
    PackedAppend(b, s.hist.delivered[d..], c, pkt);
    assert s'.hist.delivered[d..] == s.hist.delivered[d..] + [pkt];
  }

  lemma ReadMisses(s0: System, run: seq<Step>, s: System, b: seq<Byte>, run': seq<Step>, s': System)
    requires ReadSoFar(s0, run, s, b) && Runs(s, run', s') && s'.hist == s.hist
    ensures ReadSoFar(s0, run + run', s', b)
  {
    RunsAppend(s0, run, s, run', s');
  }

  lemma ReadEnds(s0: System, run: seq<Step>, s: System, b: seq<Byte>)
    requires ReadSoFar(s0, run, s, b)
    ensures Runs(s0, run, s) && s.hist.log == s0.hist.log && s0.hist.delivered <= s.hist.delivered
    ensures Parse(b) == s.hist.delivered[|s0.hist.delivered|..]
  {
    ParseRecovers(b, s.hist.delivered[|s0.hist.delivered|..]);
  }

  lemma FreshSystem(size: nat, rings: seq<Ring>)
    requires HEADER <= size && |rings| > 0 && Capacity(|rings|, size) < TWO32
    requires forall i :: 0 <= i < |rings| ==> FreshRing(size, rings[i])
    ensures var s := System(size, rings, 0, 0, Scanning, 0, 0, History([], [], []));
            Init(s) && Inv(s)
  {
    hide Inv;
    InitHolds(System(size, rings, 0, 0, Scanning, 0, 0, History([], [], [])));
  }

  lemma {:induction false} CapacityIsProduct(n: nat, size: nat)
    ensures Capacity(n, size) == n * size
  {
    if n > 0 {
      CapacityIsProduct(n - 1, size);
      assert n * size == (n - 1) * size + size;
    }
  }

  /** Where slice `i` begins. */
  function SliceBase(share: nat, i: nat): nat {
    share * i
  }

  lemma ShareIsShare(bytes: nat, n: nat)
    requires n > 0
    ensures n * (bytes / n) <= bytes && SliceBase(bytes / n, n) <= bytes
  {
    assert bytes == n * (bytes / n) + bytes % n;
  }

  lemma NextSlice(share: nat, i: nat)
    ensures SliceBase(share, i + 1) == SliceBase(share, i) + share
  {
  }

  /** Slice `i` ends where slice `j` begins, or before. */
  lemma {:induction false} SlicesApart(share: nat, i: nat, j: nat)
    requires i < j
    ensures SliceBase(share, i) + share <= SliceBase(share, j)
    decreases j
  {
    hide SliceBase;
    NextSlice(share, j - 1);
    if i + 1 < j {
      SlicesApart(share, i, j - 1);
    }
  }

  /** Of slices that lie one behind the other, a change in slice `i` leaves all others. */
  lemma SlicesKept(s: seq<Byte>, t: seq<Byte>, bases: seq<nat>, size: nat, i: nat)
    requires i < |bases| && |s| == |t| && (forall j :: 0 <= j < |bases| ==> bases[j] + size <= |s|)
    requires forall j, k :: 0 <= j < k < |bases| ==> bases[j] + size <= bases[k]
    requires s[..bases[i]] == t[..bases[i]] && s[bases[i] + size..] == t[bases[i] + size..]
    ensures forall j :: 0 <= j < |bases| && j != i ==> s[bases[j]..bases[j] + size] == t[bases[j]..bases[j] + size]
  {
    forall j | 0 <= j < |bases| && j != i
      ensures s[bases[j]..bases[j] + size] == t[bases[j]..bases[j] + size]
    {
      SameElsewhere(s, t, bases[i], bases[i] + size, bases[j], bases[j] + size);
    }
  }

  /** How much of a packet of `total` bytes the filter's verdict asks for; all ones means everything. */
  function Wanted(verdict: U32, total: U32): (fres: U32)
    ensures total < TWO32 - 1 ==> fres == if verdict < total then verdict else total
  {
    if verdict == TWO32 - 1 || verdict > total then total else verdict
  }

  class OpenInstance {
    var cpus: seq<CpuPrivateData>
    var Size: nat
    var WriterSN: U32
    var ReaderSN: U32
    ghost var pool: array<Byte>
    ghost var sys: System

    /** One slice of `Size` bytes per CPU, in one allocation, none overlapping another. */
    ghost predicate Sliced()
      reads `cpus, `Size, `pool, cpus
    {
      && |cpus| > 0
      && (forall i, j :: 0 <= i < j < |cpus| ==> cpus[i] != cpus[j] && cpus[i].base + Size <= cpus[j].base)
      && (forall i :: 0 <= i < |cpus| ==> cpus[i].Buffer == pool)
    }

    ghost predicate Running()
      reads this, cpus, pool
      requires Sliced()
    {
      && Inv(sys) && sys.size == Size && |sys.rings| == |cpus| && sys.reader.Scanning?
      && sys.writerSN == WriterSN && sys.readerSN == ReaderSN
      && forall i :: 0 <= i < |cpus| ==> Mirror(cpus[i], Size, sys.rings[i])
    }

    /** No buffer has been set: packets are only counted. */
    ghost predicate Unset()
      reads `cpus, cpus
    {
      forall i :: 0 <= i < |cpus| ==>
        && cpus[i].TransferMdl1.None? && cpus[i].TransferMdl2.None? && cpus[i].Accepted == 0
        && cpus[i].Received == cpus[i].Dropped + cpus[i].Rejected
    }

    ghost predicate Valid()
      reads this, cpus, pool
    {
      Sliced() && if Size == 0 then Unset() else Running()
    }

    twostate lemma StillSliced(i: nat)
      requires old(Sliced()) && i < |cpus| && cpus == old(cpus) && Size == old(Size) && pool == old(pool)
      requires forall j :: 0 <= j < |cpus| && j != i ==> unchanged(cpus[j])
      requires cpus[i].base == old(cpus[i].base) && cpus[i].Buffer == old(cpus[i].Buffer)
      ensures Sliced()
    {
    }

    lemma BasesApart(i: nat)
      requires Sliced() && i < |cpus|
      ensures forall j, k :: 0 <= j < k < |cpus| ==> cpus[j].base + Size <= cpus[k].base
      ensures forall j :: 0 <= j < |cpus| ==> cpus[j].Buffer == pool
    {
    }

    /** A call on CPU `i` that stays inside its slice leaves all other CPUs as they were. */
    twostate lemma OthersKeep(i: nat)
      requires old(Sliced()) && i < |cpus| && cpus == old(cpus) && Size == old(Size) && pool == old(pool)
      requires forall j :: 0 <= j < |cpus| && j != i ==> unchanged(cpus[j])
      requires cpus[i].base == old(cpus[i].base) && cpus[i].Buffer == old(cpus[i].Buffer)
      requires forall j :: 0 <= j < |cpus| ==> old(cpus[j].InBuffer(Size))
      requires cpus[i].Others(Size) == old(cpus[i].Others(Size))
      ensures Sliced()
      ensures forall j :: 0 <= j < |cpus| && j != i ==>
                cpus[j].InBuffer(Size) && cpus[j].Image(Size) == old(cpus[j].Image(Size))
    {
      hide Sliced;
      StillSliced(i);
      BasesApart(i);
      ghost var bases := seq(|cpus|, j requires 0 <= j < |cpus| reads this, cpus => cpus[j].base);
      assert cpus[i].Others(Size) == (pool[..cpus[i].base], pool[cpus[i].base + Size..]);
      SlicesKept(old(pool[..]), pool[..], bases, Size, i);
      forall j | 0 <= j < |cpus| && j != i
        ensures cpus[j].InBuffer(Size) && cpus[j].Image(Size) == old(cpus[j].Image(Size))
      {
        var b := bases[j];
        assert cpus[j].Image(Size) == pool[..][b..b + Size] && old(cpus[j].Image(Size)) == old(pool[..])[b..b + Size];
      }
    }

    /** The rings of all CPUs but `i` are as they were, byte for byte. */
    twostate predicate OthersIntact(i: nat)
      requires Sliced() && old(Sliced())
      reads this, cpus, pool
    {
      && cpus == old(cpus) && Size == old(Size) && pool == old(pool)
      && forall j :: 0 <= j < |cpus| && j != i ==>
           && cpus[j].InBuffer(Size) && old(cpus[j].InBuffer(Size))
           && cpus[j].Image(Size) == old(cpus[j].Image(Size))
    }

    /** The call just made changed ring `i` only, as `sys` says. */
    twostate lemma Settled(i: nat)
      requires old(Valid()) && Size > 0 && i < |cpus| && cpus == old(cpus) && Size == old(Size) && pool == old(pool)
      requires forall j :: 0 <= j < |cpus| && j != i ==> unchanged(cpus[j])
      requires cpus[i].base == old(cpus[i].base) && cpus[i].Buffer == old(cpus[i].Buffer)
      requires cpus[i].Others(Size) == old(cpus[i].Others(Size))
      requires |sys.rings| == |cpus| && sys.rings == old(sys).rings[i := sys.rings[i]]
      requires sys.size == Size && sys.reader.Scanning? && sys.writerSN == WriterSN && sys.readerSN == ReaderSN
      requires Mirror(cpus[i], Size, sys.rings[i]) && Inv(sys)
      ensures Valid() && OthersIntact(i)
    {
      hide Inv;
      OthersKeep(i);
      forall j | 0 <= j < |cpus| && j != i
        ensures Mirror(cpus[j], Size, sys.rings[j])
      {
        assert old(Mirror(cpus[j], Size, sys.rings[j]));
      }
    }

    // -------------------------------------------------------------- the tap

    /** With no buffer set, a packet is counted as rejected or dropped. */
    method CountOnly(i: nat, rejected: bool)
      requires Valid() && Size == 0 && i < |cpus|
      modifies cpus[i]
      ensures Valid()
      ensures Tally(cpus[i]) == Bumped(old(Tally(cpus[i])), 1, 0, if rejected then 0 else 1, if rejected then 1 else 0)
    {
      hide Running, Sliced, Unset;
      var c := cpus[i];
      CpusDiffer(i);
      c.Received := c.Received + 1;
      if rejected {
        c.Rejected := c.Rejected + 1;
      } else {
        c.Dropped := c.Dropped + 1;
      }
      StillUnset(i);
    }

    lemma CpusDiffer(i: nat)
      requires Sliced() && i < |cpus|
      ensures forall j :: 0 <= j < |cpus| && j != i ==> cpus[j] != cpus[i]
    {
    }

    twostate lemma StillUnset(i: nat)
      requires old(Valid()) && Size == 0 && i < |cpus| && cpus == old(cpus) && Size == old(Size) && pool == old(pool)
      requires forall j :: 0 <= j < |cpus| && j != i ==> unchanged(cpus[j])
      requires cpus[i].base == old(cpus[i].base) && cpus[i].Buffer == old(cpus[i].Buffer)
      requires cpus[i].TransferMdl1 == old(cpus[i].TransferMdl1) && cpus[i].TransferMdl2 == old(cpus[i].TransferMdl2)
      requires var t, u := old(Tally(cpus[i])), Tally(cpus[i]);
               u.accepted == t.accepted && u.received - u.dropped - u.rejected == t.received - t.dropped - t.rejected
      ensures Valid()
    {
      hide Running;
    }

    /** The filter returned 0. */
    method Reject(i: nat) returns (ghost run: seq<Step>)
      requires Valid() && Size > 0 && i < |cpus|
      modifies this`sys, cpus[i]
      ensures Valid() && run == [Receive(i), Step.Reject(i)] && Runs(old(sys), run, sys)
      ensures sys.hist == old(sys.hist) && OthersIntact(i)
      ensures Tally(cpus[i]) == Bumped(old(Tally(cpus[i])), 1, 0, 0, 1)
    {
      hide Inv, Runs, Chain, RingOk, HalfStored, Described;
      var c := cpus[i];
      assert Mirror(c, Size, sys.rings[i]);
      run := [Receive(i), Step.Reject(i)];
      ghost var t := CountRun(sys, i, Step.Reject(i));
      sys := t;
      c.Received := c.Received + 1;
      c.Rejected := c.Rejected + 1;
      Settled(i);
    }

    /** No room for the packet, or a transfer still pending. */
    method Refuse(i: nat, n: nat) returns (ghost run: seq<Step>)
      requires Valid() && Size > 0 && i < |cpus|
      requires n + HEADER > cpus[i].Free || cpus[i].TransferMdl1.Some?
      modifies this`sys, cpus[i]
      ensures Valid() && run == [Receive(i), Drop(i, n)] && Runs(old(sys), run, sys)
      ensures sys.hist == old(sys.hist) && OthersIntact(i)
      ensures Tally(cpus[i]) == Bumped(old(Tally(cpus[i])), 1, 0, 1, 0)
    {
      hide Inv, Runs, Chain, RingOk, HalfStored, Described;
      var c := cpus[i];
      assert Mirror(c, Size, sys.rings[i]);
      run := [Receive(i), Drop(i, n)];
      ghost var t := CountRun(sys, i, Drop(i, n));
      sys := t;
      c.Received := c.Received + 1;
      c.Dropped := c.Dropped + 1;
      Settled(i);
    }

    /** All bytes wanted are at hand. */
    method Store(i: nat, hb: seq<Byte>, look: seq<Byte>, contiguous: bool, fres: U32, datalen: U32, sec: U32, usec: U32)
      returns (ghost run: seq<Step>, ghost moves: seq<Copy>)
      requires Valid() && Size > 0 && i < |cpus| && cpus[i].TransferMdl1.None?
      requires fres <= |hb| + |look| && fres + HEADER <= cpus[i].Free
      modifies this`sys, this`WriterSN, cpus[i], pool
      ensures Valid() && Runs(old(sys), run, sys) && OthersIntact(i)
      ensures run == StoreSteps(i, datalen, (hb + look)[..fres], sec, usec, old(cpus[i].Image(Size)), moves)
      ensures Tally(cpus[i]) == Bumped(old(Tally(cpus[i])), 1, 1, 0, 0)
      ensures sys.hist == old(sys.hist).(
                log := old(sys.hist.log) + [NewPacket(sec, usec, datalen, (hb + look)[..fres])],
                owner := old(sys.hist.owner) + [i])
    {
      hide Inv, Runs, RecordImage, Next, Increment, Chain, Span, StepByStep, StoreSteps, MirrorTransfer, RingOk;
      hide Completed;
      var c := cpus[i];
      ghost var r := sys.rings[i];
      ghost var data := (hb + look)[..fres];
      assert Mirror(c, Size, r);
      NoTransfer(c, Size, r);
      GeometryOf(i);
      c.Received := c.Received + 1;
      WriterSN, moves := c.TapDirect(Size, hb, look, contiguous, fres, datalen, sec, usec, WriterSN);
      ghost var t;
      run, t := StoreRun(sys, i, datalen, data, sec, usec, moves);
      sys := t;
      MirrorCompleted(c, Size, Counted(r, 1, 0, 0, 0), old(sys.writerSN), |old(sys.hist.log)|,
                      NewPacket(sec, usec, datalen, data));
      Settled(i);
    }

    /** The look-ahead is too short: store what there is and ask NDIS for the rest. */
    method Defer(i: nat, hb: seq<Byte>, look: seq<Byte>, ghost rest: seq<Byte>, fres: U32, datalen: U32, pools: Pools)
      returns (ok: bool, ghost run: seq<Step>, ghost moves: seq<Copy>)
      requires Valid() && Size > 0 && i < |cpus| && cpus[i].TransferMdl1.None?
      requires |hb| + |look| < fres && |hb| + |look| + |rest| == fres && fres + HEADER <= cpus[i].Free
      modifies this`sys, cpus[i], pool
      ensures Valid() && Runs(old(sys), run, sys) && sys.hist == old(sys.hist) && OthersIntact(i)
      ensures run == DeferSteps(i, datalen, hb + look + rest, old(cpus[i].Image(Size)), moves, ok)
      ensures ok ==> cpus[i].TransferMdl1.Some? && |sys.rings| == |cpus|
                     && sys.rings[i].prod == Reserved(datalen, hb + look + rest) && cpus[i].front == hb + look
      ensures !ok ==> cpus[i].TransferMdl1.None?
      ensures Tally(cpus[i]) == Bumped(old(Tally(cpus[i])), 1, 0, if ok then 0 else 1, 0)
      ensures ok == Describable(Size, old(cpus[i].P), |hb + look|, fres, pools)
    {
      hide Inv, Runs, StepByStep, DeferSteps, OnlyWithin, Apply, Described, HalfStored, Describable;
      ghost var t: System;
      assert Mirror(cpus[i], Size, sys.rings[i]);
      GeometryOf(i);
      ok, moves := StorePart(i, hb, look, rest, fres, datalen, pools);
      run, t := DeferRun(sys, i, datalen, hb + look + rest, cpus[i].Image(Size), moves, ok);
      sys := t;
      Settled(i);
    }

    /** The stores of a deferred packet, and its counters. */
    method StorePart(
        i: nat, hb: seq<Byte>, look: seq<Byte>, ghost rest: seq<Byte>, fres: U32, datalen: U32, pools: Pools)
      returns (ok: bool, ghost moves: seq<Copy>)
      requires Valid() && Size > 0 && i < |cpus| && cpus[i].TransferMdl1.None? && cpus[i].Geometry(Size)
      requires |hb| + |look| < fres && |hb| + |look| + |rest| == fres && fres + HEADER <= cpus[i].Free
      modifies cpus[i], pool
      ensures cpus[i].base == old(cpus[i].base) && cpus[i].Buffer == pool && cpus[i].InBuffer(Size)
      ensures cpus[i].Others(Size) == old(cpus[i].Others(Size))
      ensures StepByStep(old(cpus[i].Image(Size)), cpus[i].Image(Size), moves, cpus[i].P, HEADER + fres)
      ensures |sys.rings| == |cpus| && old(cpus[i].Image(Size)) == sys.rings[i].img && cpus[i].P == sys.rings[i].P
      ensures ok ==> cpus[i].TransferMdl1.Some? && cpus[i].front == hb + look
      ensures !ok ==> cpus[i].TransferMdl1.None?
      ensures var img := cpus[i].Image(Size);
              Mirror(cpus[i], Size,
                if ok then Counted(sys.rings[i], 1, 0, 0, 0).(img := img, prod := Reserved(datalen, hb + look + rest))
                else Counted(sys.rings[i], 1, 0, 1, 0).(img := img))
      ensures Tally(cpus[i]) == Bumped(old(Tally(cpus[i])), 1, 0, if ok then 0 else 1, 0)
      ensures ok == Describable(Size, old(cpus[i].P), |hb + look|, fres, pools)
    {
      hide Inv, StepByStep, OnlyWithin, Described, HalfStored, LengthsIn, Describable;
      hide PayloadStart, Fold, Congruent, Nth;
      var c := cpus[i];
      assert Mirror(c, Size, sys.rings[i]);
      c.Received := c.Received + 1;
      ok, moves := c.TapTransfer(Size, hb, look, fres, datalen, pools);
    }

    /** NPF_TransferDataComplete: the missing bytes have arrived. */
    method TransferDataComplete(i: nat, rest: seq<Byte>, sec: U32, usec: U32)
      returns (ghost run: seq<Step>, ghost mid: seq<Byte>, ghost fill: seq<Copy>, ghost stamp: seq<Copy>)
      requires Valid() && Size > 0 && i < |cpus| && cpus[i].TransferMdl1.Some? && |sys.rings| == |cpus|
      requires sys.rings[i].prod.Reserved? && sys.rings[i].prod.data == cpus[i].front + rest
      modifies this`sys, this`WriterSN, cpus[i], pool
      ensures Valid() && Runs(old(sys), run, sys) && cpus[i].TransferMdl1.None? && OthersIntact(i)
      ensures run == WriteSteps(i, old(cpus[i].Image(Size)), fill) + [Assign(i, sec, usec)]
                     + WriteSteps(i, mid, stamp) + [Publish(i)]
      ensures Tally(cpus[i]) == Bumped(old(Tally(cpus[i])), 0, 1, 0, 0)
      ensures old(|sys.rings[i].prod.data|) < TWO32
      ensures var p := old(sys.rings[i].prod);
              sys.hist == old(sys.hist).(
                log := old(sys.hist.log) + [NewPacket(sec, usec, p.datalen, p.data)],
                owner := old(sys.hist.owner) + [i])
    {
      hide Inv, Runs, StepByStep, WriteSteps, RecordImage, Next, Increment, Chain, Span, HalfStored, Described;
      hide RingOk, Congruent, Completed, Running, Mirror, MirrorTransfer;
      var c := cpus[i];
      ghost var r := sys.rings[i];
      InStep(i);
      HasPending(i);
      GeometryOf(i);
      RoomReserved(i);
      ghost var t: System;
      WriterSN, mid, fill, stamp :=
        c.CompleteTransfer(Size, rest, sec, usec, WriterSN, |r.prod.data|, r.prod.datalen);
      run, t := CompleteRun(sys, i, sec, usec, mid, fill, stamp);
      sys := t;
      MirrorCompleted(c, Size, r, old(sys.writerSN), |old(sys.hist.log)|,
                      NewPacket(sec, usec, r.prod.datalen, r.prod.data));
      Settled(i);
    }

    /** CPU `i` and its ring in the transition system. */
    lemma InStep(i: nat)
      requires Valid() && Size > 0 && i < |cpus|
      ensures |sys.rings| == |cpus| && Inv(sys) && sys.size == Size && sys.reader.Scanning?
      ensures sys.writerSN == WriterSN && sys.readerSN == ReaderSN
      ensures var c, r := cpus[i], sys.rings[i];
              && c.InBuffer(Size) && c.Image(Size) == r.img && c.P == r.P && c.C == r.C && c.Free == r.free
              && r.counters == Tally(c) && r.filtering == 0
    {
      hide Inv;
      assert Mirror(cpus[i], Size, sys.rings[i]);
    }

    lemma HasPending(i: nat)
      requires Valid() && Size > 0 && i < |cpus| && cpus[i].TransferMdl1.Some?
      ensures i < |sys.rings|
      ensures var c, p := cpus[i], sys.rings[i].prod;
              && p.Reserved? && |p.data| < TWO32 && c.front < p.data
              && Described(Size, c.P, c.NewP, c.TransferMdl1.value, c.TransferMdl2, |c.front|, |p.data|)
              && HalfStored(sys.rings[i].img, c.P, c.front, |p.data|, p.datalen)
    {
      hide Inv, Described, HalfStored;
      assert Mirror(cpus[i], Size, sys.rings[i]);
    }

    lemma RoomReserved(i: nat)
      requires Valid() && Size > 0 && i < |cpus| && sys.rings[i].prod.Reserved?
      ensures |sys.rings[i].prod.data| + HEADER <= cpus[i].Free
    {
      assert Mirror(cpus[i], Size, sys.rings[i]) && RingOk(Size, sys.rings[i]);
    }

    lemma GeometryOf(i: nat)
      requires Valid() && Size > 0 && i < |cpus|
      ensures cpus[i].Geometry(Size)
    {
      hide Chain, Span;
      var r := sys.rings[i];
      assert Mirror(cpus[i], Size, r) && RingOk(Size, r);
      FreeIsDistance(r.img, r.C, r.P, r.free, r.q);
    }

    /**
     What becomes of a packet that arrives on CPU `i`, and what is counted, by the filter's verdict. The
     tap wants the first `n` bytes, of which `missing` are not at hand; these need a second descriptor if
     they go round the end of the ring.
     */
    twostate predicate Tapped(i: nat, hb: seq<Byte>, payload: seq<Byte>, lookLen: nat, verdict: U32,
                              sec: U32, usec: U32, pools: Pools, pending: bool, outcome: Outcome)
      requires i < |cpus| && cpus == old(cpus) && lookLen <= |payload| && |hb| + |payload| < TWO32
      reads this, cpus
    {
      var total: U32 := |hb| + |payload|;
      var n: U32 := if verdict < total then verdict else total;
      var missing := n - |hb| - lookLen;
      var room := Size > 0 && n + HEADER <= old(cpus[i].Free) && old(cpus[i].TransferMdl1.None?);
      && (outcome == Rejected <==> verdict == 0)
      && (verdict != 0 && !room ==> outcome == Dropped)
      && (verdict != 0 && room && missing <= 0 ==> outcome == Stored)
      && (verdict != 0 && room && missing > 0 ==>
            var round := (old(cpus[i].P) + HEADER + |hb| + lookLen) % Size + missing > Size;
            outcome == if !pools.packet || !pools.mdl1 || (round && !pools.mdl2) then Dropped
                       else if pending then Pending else Stored)
      && (outcome == Pending ==>
            && Size > 0 && |sys.rings| == |cpus| && cpus[i].TransferMdl1.Some?
            && sys.rings[i].prod == Reserved(total, (hb + payload)[..n])
            && cpus[i].front == hb + payload[..lookLen])
      && (outcome == Stored ==>
            && Size > 0
            && sys.hist == old(sys.hist).(
                 log := old(sys.hist.log) + [Packet(BpfHdr(sec, usec, n, total, BPF_HDR), (hb + payload)[..n])],
                 owner := old(sys.hist.owner) + [i]))
      && (Size > 0 && outcome != Stored ==> sys.hist == old(sys.hist))
      && cpus[i].Received == old(cpus[i].Received) + 1
      && cpus[i].Accepted == old(cpus[i].Accepted) + (if outcome == Stored then 1 else 0)
      && cpus[i].Dropped == old(cpus[i].Dropped) + (if outcome == Dropped then 1 else 0)
      && cpus[i].Rejected == old(cpus[i].Rejected) + (if outcome == Rejected then 1 else 0)
    }

    /**
     NPF_tap on CPU `i`, with the filter's verdict. The packet is `hb + payload`, of which the
     first `lookLen` payload bytes are at hand; `contiguous` says that they follow the header in
     memory. NDIS delivers missing bytes at once or, if `pending`, later.
    */
    method Tap(i: nat, hb: seq<Byte>, payload: seq<Byte>, lookLen: nat, contiguous: bool, verdict: U32,
               sec: U32, usec: U32, pools: Pools, pending: bool) returns (outcome: Outcome, ghost run: seq<Step>)
      requires Valid() && i < |cpus| && lookLen <= |payload| && |hb| + |payload| + HEADER < TWO32
      modifies this`sys, this`WriterSN, cpus[i], pool
      ensures Valid() && (Size > 0 ==> Runs(old(sys), run, sys) && OthersIntact(i))
      ensures Tapped(i, hb, payload, lookLen, verdict, sec, usec, pools, pending, outcome)
      ensures outcome == Stored ==>
                && Size > 0 && |sys.hist.log| == |old(sys.hist.log)| + 1
                && var kept := sys.hist.log[|sys.hist.log| - 1].data;
                   && kept <= hb + payload && |kept| <= verdict
                   && (|kept| == verdict || |kept| == |hb| + |payload|)
      ensures outcome == Pending ==>
                && Size > 0 && |sys.rings| == |cpus| && sys.rings[i].prod.Reserved?
                && var kept := sys.rings[i].prod.data;
                   && kept <= hb + payload && |hb| + lookLen < |kept| <= verdict
                   && (|kept| == verdict || |kept| == |hb| + |payload|)
      ensures outcome == Rejected <==> verdict == 0
      ensures (
        && Size > 0 && old(cpus[i].Free) >= HEADER + verdict && old(cpus[i].TransferMdl1.None?)
        && pools == Pools(true, true, true)) ==> outcome != Dropped
    {
      hide Inv, Runs, Mirror, StoreSteps, DeferSteps, WriteSteps;
      var total: U32 := |hb| + |payload|;
      run := [];
      if verdict == 0 {
        if Size == 0 {
          CountOnly(i, true);
        } else {
          run := Reject(i);
        }
        return Rejected, run;
      }
      var fres := Wanted(verdict, total);
      if Size == 0 {
        CountOnly(i, false);
        return Dropped, run;
      }
      if fres + HEADER > cpus[i].Free || cpus[i].TransferMdl1.Some? {
        run := Refuse(i, fres);
        return Dropped, run;
      }
      outcome, run := TakeIn(i, hb, payload, lookLen, contiguous, verdict, sec, usec, pools, pending);
    }

    /** The packet passed filter and admission test: store it, or as much as is at hand. */
    method TakeIn(i: nat, hb: seq<Byte>, payload: seq<Byte>, lookLen: nat, contiguous: bool, verdict: U32,
                  sec: U32, usec: U32, pools: Pools, pending: bool) returns (outcome: Outcome, ghost run: seq<Step>)
      requires Valid() && Size > 0 && i < |cpus| && lookLen <= |payload| && |hb| + |payload| + HEADER < TWO32
      requires verdict != 0 && cpus[i].TransferMdl1.None?
      requires Wanted(verdict, |hb| + |payload|) + HEADER <= cpus[i].Free
      modifies this`sys, this`WriterSN, cpus[i], pool
      ensures Valid() && Runs(old(sys), run, sys) && OthersIntact(i)
      ensures Tapped(i, hb, payload, lookLen, verdict, sec, usec, pools, pending, outcome)
    {
      hide Inv, Runs, Mirror, Describable, StoreSteps, DeferSteps, WriteSteps, Running;
      var total: U32 := |hb| + |payload|;
      var fres := Wanted(verdict, total);
      var look := payload[..lookLen];
      if lookLen + |hb| >= fres {
        ghost var moves;
        run, moves := Store(i, hb, look, contiguous, fres, total, sec, usec);
        assert (hb + look)[..fres] == (hb + payload)[..fres];
        return Stored, run;
      }
      outcome, run := TakeInPart(i, hb, payload, lookLen, verdict, sec, usec, pools, pending);
    }

    /** Some of the bytes wanted are not at hand; NDIS delivers them at once or later. */
    method TakeInPart(i: nat, hb: seq<Byte>, payload: seq<Byte>, lookLen: nat, verdict: U32,
                      sec: U32, usec: U32, pools: Pools, pending: bool)
      returns (outcome: Outcome, ghost run: seq<Step>)
      requires Valid() && Size > 0 && i < |cpus| && lookLen <= |payload| && |hb| + |payload| + HEADER < TWO32
      requires verdict != 0 && cpus[i].TransferMdl1.None?
      requires |hb| + lookLen < Wanted(verdict, |hb| + |payload|) <= cpus[i].Free - HEADER
      modifies this`sys, this`WriterSN, cpus[i], pool
      ensures Valid() && Runs(old(sys), run, sys) && OthersIntact(i)
      ensures Tapped(i, hb, payload, lookLen, verdict, sec, usec, pools, pending, outcome)
    {
      hide Inv, Runs, Mirror, DeferSteps, WriteSteps, Running, Sliced, Unset;
      var total: U32 := |hb| + |payload|;
      var fres := Wanted(verdict, total);
      var look := payload[..lookLen];
      ghost var rest := payload[lookLen..fres - |hb|];
      assert hb + look + rest == (hb + payload)[..fres];
      var ok;
      ghost var front;
      ok, run, front := Defer(i, hb, look, rest, fres, total, pools);
      if !ok {
        return Dropped, run;
      }
      if pending {
        return Pending, run;
      }
      ghost var mid := sys;
      ghost var more, half, fill, stamp := TransferDataComplete(i, payload[lookLen..fres - |hb|], sec, usec);
      RunsAppend(old(sys), run, mid, more, sys);
      return Stored, run + more;
    }

    // -------------------------------------------------------------- NPF_Read

    /** The next packet does not fit in the room left, or there is none. */
    ghost predicate NothingMore(left: int)
      reads this
    {
      && |sys.hist.delivered| <= |sys.hist.log|
      && (|sys.hist.delivered| < |sys.hist.log| ==> BPF_HDR + |sys.hist.log[|sys.hist.delivered|].data| > left)
    }

    /** Copy the head of CPU `i`'s ring, which has the next packet, to `user` and give its bytes back. */
    method Consume(i: nat, user: array<Byte>, copied: nat) returns (plen: U32, ghost run: seq<Step>)
      requires Valid() && Size > 0 && user != pool && i < |cpus| && i < |sys.rings|
      requires sys.current == i && Enabled(sys, Start) && |sys.rings[i].q| > 0
      requires copied + BPF_HDR + |sys.rings[i].q[0].pkt.data| <= user.Length
      modifies this`sys, this`ReaderSN, cpus[i], user
      ensures Valid() && Runs(old(sys), run, sys)
      ensures var r := old(sys.rings[i]);
              && Fits(|r.img|, r.C, plen) && plen == |r.q[0].pkt.data| && sys == AfterTake(old(sys))
              && user[..] == Blit(old(user[..]), copied, RecordBytes(r.img, r.C, plen))
    {
      hide Inv, Runs, Hit, Next, Increment, Holds, HeaderAt, Blit, RecordBytes, HalfStored, Described;
      var c := cpus[i];
      ghost var r := sys.rings[i];
      assert Mirror(c, Size, r);
      HeadHolds(i);
      run := TakeRun(sys);
      plen := c.TakeHead(Size, user, copied);
      assert c.Image(Size) == r.img && plen == |r.q[0].pkt.data|;
      ReaderSN := (ReaderSN + 1) % TWO32;
      sys := AfterTake(sys);
      Settled(i);
    }

    /** The head of CPU `i`'s ring is the next packet: put it behind `copied`, padded to a word. */
    method TakeNext(i: nat, user: array<Byte>, copied: nat) returns (copied': nat, ghost run: seq<Step>)
      requires Valid() && Size > 0 && user != pool && i < |cpus| && i < |sys.rings|
      requires sys.current == i && Enabled(sys, Start) && |sys.rings[i].q| > 0
      requires copied + Stride(|sys.rings[i].q[0].pkt.data|) <= user.Length
      modifies this`sys, this`ReaderSN, cpus[i], user
      ensures Valid() && Runs(old(sys), run, sys)
      ensures var pkt := old(sys.rings[i].q[0].pkt);
              && copied' == copied + Stride(|pkt.data|)
              && IsPacket(user[copied..copied'], pkt)
              && user[..copied] == old(user[..copied]) && user[copied'..] == old(user[copied'..])
              && sys.hist == old(sys.hist).(delivered := old(sys.hist.delivered) + [pkt])
      ensures sys.current == i && sys.count == 0 && |sys.rings| == |old(sys.rings)|
    {
      hide Inv, Runs, Hit, Mirror, Holds, HeaderAt, Blit, RecordBytes, IsPacket;
      ghost var r := sys.rings[i];
      ghost var e := r.q[0];
      HeadHolds(i);
      RecordBytesOf(r.img, r.C, e);
      StoredIsPacket(user[..], copied, RecordBytes(r.img, r.C, |e.pkt.data|), e.pkt);
      var plen;
      plen, run := Consume(i, user, copied);
      copied' := copied + BPF_HDR + WordAlign(plen);
    }

    lemma HeadHolds(i: nat)
      requires Valid() && Size > 0 && i < |cpus| && i < |sys.rings| && |sys.rings[i].q| > 0
      ensures var r := sys.rings[i];
              var e := r.q[0];
              && |r.img| == Size && Holds(r.img, r.C, e) && Fits(Size, r.C, |e.pkt.data|)
              && HeaderAt(r.img, r.C + 4) == e.pkt.hdr && e.pkt.hdr.caplen == |e.pkt.data|
    {
      hide Inv, Chain, Span, U32At, HeaderAt, Congruent;
      var r := sys.rings[i];
      RingIsOk(sys, i);
      ChainHead(r.img, r.C, r.q);
    }

    /** The reader's test of one ring, on the fields themselves. */
    predicate HeadIsNext(i: nat)
      reads this, cpus, if i < |cpus| then {cpus[i].Buffer} else {}
      requires i < |cpus| && cpus[i].InBuffer(Size) && cpus[i].C + HEADER <= Size
    {
      cpus[i].Free < Size && U32At(cpus[i].Image(Size), cpus[i].C) == ReaderSN
    }

    /** On the fields and in the transition system the test comes out the same. */
    lemma HeadIsNextIsHit(i: nat)
      requires Valid() && Size > 0 && i < |cpus|
      ensures i < |sys.rings| && cpus[i].InBuffer(Size) && cpus[i].C + HEADER <= Size
      ensures HeadIsNext(i) <==> Hit(sys, i)
    {
      assert Mirror(cpus[i], Size, sys.rings[i]) && RingOk(Size, sys.rings[i]);
    }

    /** If the ring under the cursor has the next packet, its length is the next packet's. */
    lemma HitIsNext(i: nat)
      requires Valid() && Size > 0 && i < |cpus| && i < |sys.rings| && Hit(sys, i)
      ensures var q, d := sys.rings[i].q, |sys.hist.delivered|;
              && |q| > 0 && d < |sys.hist.log| && q[0].pkt == sys.hist.log[d]
              && cpus[i].InBuffer(Size) && cpus[i].C + HEADER <= Size
              && HeaderAt(cpus[i].Image(Size), cpus[i].C + 4).caplen == |q[0].pkt.data|
    {
      hide Inv, Hit, Holds, HeaderAt, HalfStored, Described;
      HitIsLogged(sys, i);
      assert Mirror(cpus[i], Size, sys.rings[i]);
      HeadHolds(i);
    }

    lemma LogIsAhead()
      requires Valid() && Size > 0
      ensures |sys.hist.delivered| <= |sys.hist.log| && |sys.rings| == |cpus| && sys.reader.Scanning?
    {
    }

    /** Between calls no producer is in the middle of publishing, so a full round of misses is the end. */
    lemma RoundOfMisses()
      requires Valid() && Size > 0
      requires RoundMissed(sys) && sys.count == |sys.rings|
      ensures |sys.hist.delivered| == |sys.hist.log|
    {
      hide Inv, Hit, Mirror;
      assert forall i :: 0 <= i < |sys.rings| ==> Ahead(|sys.rings|, sys.current, i) >= 0;
      forall i | 0 <= i < |sys.rings|
        ensures !sys.rings[i].prod.Numbered?
      {
        MirrorIsQuiet(i);
      }
      MergeComplete(sys);
    }

    lemma MirrorIsQuiet(i: nat)
      requires Valid() && Size > 0 && i < |cpus|
      ensures i < |sys.rings| && !sys.rings[i].prod.Numbered?
    {
      assert Mirror(cpus[i], Size, sys.rings[i]);
    }

    /** One look at the ring of CPU `i` that finds nothing to take. */
    method MoveOn(i: nat) returns (next: nat, ghost run: seq<Step>)
      requires Valid() && Size > 0 && i < |cpus| && i < |sys.rings| && sys.current == i
      requires Enabled(sys, Miss) && RoundMissed(sys)
      modifies this`sys
      ensures Valid() && Runs(old(sys), run, sys) && RoundMissed(sys)
      ensures next == (i + 1) % |cpus| && sys == old(sys).(current := next, count := old(sys.count) + 1)
    {
      hide Inv, Runs, Hit;
      next := (i + 1) % |cpus|;
      run := [Miss];
      RunsOne(sys, Miss);
      StepKeeps(sys, Miss);
      MissKeepsRound(sys);
      sys := Apply(sys, Miss);
    }

    /** What holds each time the copy loop looks at the ring of CPU `cpu`. */
    ghost predicate Reading(start: System, run: seq<Step>, user: array<Byte>, copied: nat, cpu: nat, count: nat)
      reads this, cpus, pool, user
    {
      && Valid() && Size > 0 && user != pool && WholeWords(user.Length)
      && |sys.rings| == |cpus| && |sys.hist.delivered| <= |sys.hist.log|
      && copied <= user.Length && copied % 4 == 0
      && ReadSoFar(start, run, sys, user[..copied])
      && count <= |cpus| && cpu < |cpus| && sys.current == cpu && sys.count == count
      && RoundMissed(sys)
    }

    /** One turn of the loop: take the packet, go on to the next CPU, or stop because it does not fit. */
    method Look(ghost start: System, ghost run: seq<Step>, user: array<Byte>, copied: nat, cpu: nat, count: nat)
      returns (stop: bool, copied': nat, cpu': nat, count': nat, ghost run': seq<Step>)
      requires Reading(start, run, user, copied, cpu, count) && count < |cpus|
      modifies this`sys, this`ReaderSN, cpus[cpu], user
      ensures Reading(start, run', user, copied', cpu', count')
      ensures copied <= copied' && user[copied'..] == old(user[copied'..])
      ensures stop ==> NothingMore(user.Length - copied')
      ensures !stop ==> sys.hist.log == old(sys.hist.log)
                        && (|sys.hist.delivered| > |old(sys.hist.delivered)|
                            || (sys.hist == old(sys.hist) && count' == count + 1))
    {
      hide Inv, Runs, Hit, Mirror, IsPacket, ReadSoFar, HeadIsNext, Stride, Running, Sliced, Unset;
      stop, copied', cpu', count', run' := false, copied, cpu, count, run;
      ghost var before := sys;
      LogIsAhead();
      HeadIsNextIsHit(cpu);
      if user.Length == copied {
        stop := true;
      } else if HeadIsNext(cpu) {
        HitIsNext(cpu);
        var plen := HeaderAt(cpus[cpu].Image(Size), cpus[cpu].C + 4).caplen;
        if plen + BPF_HDR > user.Length - copied {
          stop := true;
        } else {
          PaddingFits(user.Length, copied, plen);
          ghost var b, pkt, more := user[..copied], sys.rings[cpu].q[0].pkt, [];
          copied', more := TakeNext(cpu, user, copied);
          ReadTakes(start, run, before, b, more, sys, user[copied..copied'], pkt);
          assert user[..copied'] == b + user[copied..copied'];
          count', run' := 0, run + more;
        }
      } else {
        ghost var more;
        cpu', more := MoveOn(cpu);
        ReadMisses(start, run, before, user[..copied], more, sys);
        count', run' := count + 1, run + more;
      }
    }

    /**
     The copy loop of NPF_Read. The packets handed out are the next ones in the order of
     acceptance, packed one after the other; the read stops only when the next one does not fit or
     there is none. Bytes behind `copied` are untouched. It fails exactly if no buffer is set.
    */
    method Read(user: array<Byte>) returns (ok: bool, copied: nat, ghost run: seq<Step>)
      requires Valid() && user != pool && WholeWords(user.Length)
      modifies this`sys, this`ReaderSN, cpus, user
      ensures Valid() && ok == (Size > 0) && copied <= user.Length
      ensures !ok ==> copied == 0 && user[..] == old(user[..])
      ensures ok ==>
                && Runs(old(sys), run, sys)
                && sys.hist.log == old(sys.hist.log) && old(sys.hist.delivered) <= sys.hist.delivered
                && Parse(user[..copied]) == sys.hist.delivered[|old(sys.hist.delivered)|..]
                && user[copied..] == old(user[copied..])
                && var d := |sys.hist.delivered|;
                   && d <= |sys.hist.log|
                   && (d < |sys.hist.log| ==> copied + BPF_HDR + |sys.hist.log[d].data| > user.Length)
    {
      hide Inv, Runs, Hit, Mirror, ReadSoFar, RoundMissed;
      copied := 0;
      run := [];
      if Size == 0 {
        return false, 0, run;
      }
      ok := true;
      ghost var start := sys;
      run := StartReading(user);
      var count: nat, cpu: nat := 0, 0;
      while count < |cpus|
        invariant Reading(start, run, user, copied, cpu, count)
        invariant user[copied..] == old(user[copied..])
        decreases |sys.hist.log| - |sys.hist.delivered|, |cpus| - count
      {
        var stop;
        stop, copied, cpu, count, run := Look(start, run, user, copied, cpu, count);
        if stop {
          ReadEnds(start, run, sys, user[..copied]);
          return;
        }
      }
      RoundOfMisses();
      ReadEnds(start, run, sys, user[..copied]);
    }

    /** A read begins at CPU 0 with nothing copied. */
    method StartReading(ghost user: array<Byte>) returns (ghost run: seq<Step>)
      requires Valid() && Size > 0 && user != pool && WholeWords(user.Length)
      modifies this`sys
      ensures Reading(old(sys), run, user, 0, 0, 0)
    {
      hide Inv, Hit, Mirror, ReadSoFar;
      LogIsAhead();
      StepKeeps(sys, EndRead);
      ReadBegins(sys);
      run := [EndRead];
      sys := Apply(sys, EndRead);
    }

    // -------------------------------------------------------------- control requests

    /** NPF_Open: capture mode, no buffer yet. */
    constructor (nCpu: nat)
      requires nCpu > 0
      ensures Valid() && fresh(pool) && |cpus| == nCpu && Size == 0
      ensures forall i :: 0 <= i < nCpu ==> fresh(cpus[i])
      ensures Quiet()
    {
      var none := new Byte[0];
      var all: seq<CpuPrivateData> := [];
      while |all| < nCpu
        invariant |all| <= nCpu && fresh(none) && none.Length == 0
        invariant forall i, j :: 0 <= i < j < |all| ==> all[i] != all[j]
        invariant forall i :: 0 <= i < |all| ==>
                    && fresh(all[i]) && all[i].base == 0 && all[i].Buffer == none
                    && all[i].TransferMdl1.None? && all[i].TransferMdl2.None?
                    && all[i].Accepted == all[i].Received == all[i].Dropped == all[i].Rejected == 0
      {
        var c := new CpuPrivateData();
        c.Buffer := none;
        all := all + [c];
      }
      cpus, pool, Size := all, none, 0;
      WriterSN, ReaderSN := 0, 0;
    }

    /** No transfer is pending, so the buffer locks of all CPUs can be had. */
    ghost predicate Quiet()
      reads `cpus, cpus
    {
      forall i :: 0 <= i < |cpus| ==> cpus[i].TransferMdl1.None? && cpus[i].TransferMdl2.None?
    }

    /** What a CPU's fields are after a reset. */
    ghost predicate Clear(c: CpuPrivateData)
      reads `Size, c
    {
      && c.P == c.C == c.Accepted == c.Received == c.Dropped == c.Rejected == 0 && c.Free == Size
      && c.TransferMdl1.None? && c.TransferMdl2.None?
    }

    /** The offsets, free counts and counters of every CPU, one CPU after the other. */
    method ClearAll()
      requires Sliced() && Quiet()
      modifies cpus
      ensures Sliced()
      ensures forall i :: 0 <= i < |cpus| ==>
                Clear(cpus[i]) && cpus[i].base == old(cpus[i].base) && cpus[i].Buffer == old(cpus[i].Buffer) == pool
    {
      for i := 0 to |cpus|
        invariant forall j :: 0 <= j < |cpus| ==>
                    && cpus[j].base == old(cpus[j].base) && cpus[j].Buffer == pool
                    && cpus[j].TransferMdl1.None? && cpus[j].TransferMdl2.None?
        invariant forall j :: 0 <= j < i ==> Clear(cpus[j])
      {
        var c := cpus[i];
        assert forall j :: 0 <= j < |cpus| && j != i ==> cpus[j] != c;
        c.Reset(Size);
      }
    }

    /** The rings of the transition system that the cleared CPUs stand for. */
    lemma FreshRings() returns (rings: seq<Ring>)
      requires Sliced() && forall i :: 0 <= i < |cpus| ==> Clear(cpus[i]) && cpus[i].InBuffer(Size)
      ensures |rings| == |cpus|
      ensures forall i :: 0 <= i < |cpus| ==> FreshRing(Size, rings[i]) && Mirror(cpus[i], Size, rings[i])
    {
      rings := [];
      while |rings| < |cpus|
        invariant |rings| <= |cpus|
        invariant forall i :: 0 <= i < |rings| ==> FreshRing(Size, rings[i]) && Mirror(cpus[i], Size, rings[i])
      {
        var c := cpus[|rings|];
        rings := rings + [Ring(c.Image(Size), 0, 0, Size, [], Idle, RingSystem.Counters(0, 0, 0, 0), 0)];
      }
    }

    /** The cleared instance stands for a fresh transition system. */
    ghost method Restart()
      requires Sliced() && Size > 0 && ReaderSN == 0 && WriterSN == 0
      requires HEADER <= Size && Capacity(|cpus|, Size) < TWO32
      requires forall i :: 0 <= i < |cpus| ==> Clear(cpus[i]) && cpus[i].InBuffer(Size)
      modifies this`sys
      ensures Running() && Init(sys)
    {
      hide Inv, Init, FreshRing, Mirror;
      var rings := FreshRings();
      FreshSystem(Size, rings);
      sys := System(Size, rings, 0, 0, Scanning, 0, 0, History([], [], []));
    }

    /** NPF_ResetBufferContents. */
    method ResetBufferContents()
      requires Sliced() && Quiet()
      requires Size > 0 ==>
                 && HEADER <= Size && Capacity(|cpus|, Size) < TWO32
                 && forall i :: 0 <= i < |cpus| ==> cpus[i].InBuffer(Size)
      modifies this`sys, this`ReaderSN, this`WriterSN, cpus
      ensures Valid() && Quiet() && ReaderSN == 0 && WriterSN == 0
      ensures forall i :: 0 <= i < |cpus| ==>
                cpus[i].Buffer == pool && cpus[i].base == old(cpus[i].base) && Clear(cpus[i])
      ensures Size > 0 ==> Init(sys)
    {
      hide Running, Init, Quiet, Unset, Clear, Sliced;
      ReaderSN, WriterSN := 0, 0;
      ClearAll();
      if Size > 0 {
        Restart();
      }
      ClearIsQuiet();
    }

    lemma ClearIsQuiet()
      requires Sliced() && forall i :: 0 <= i < |cpus| ==> Clear(cpus[i])
      ensures Quiet() && Unset()
    {
    }

    /** Every CPU gets its share of the new buffer. */
    method ShareOut(buffer: array<Byte>, share: nat)
      requires |cpus| > 0 && Quiet() && SliceBase(share, |cpus|) <= buffer.Length
      requires forall i, j :: 0 <= i < j < |cpus| ==> cpus[i] != cpus[j]
      modifies this`Size, this`pool, cpus
      ensures Sliced() && Quiet() && Size == share && pool == buffer
      ensures forall i :: 0 <= i < |cpus| ==> cpus[i].base == SliceBase(share, i) && cpus[i].InBuffer(share)
    {
      hide SliceBase;
      for i := 0 to |cpus|
        invariant Quiet() && forall j :: 0 <= j < i ==> cpus[j].base == SliceBase(share, j) && cpus[j].Buffer == buffer
      {
        cpus[i].Buffer := buffer;
        cpus[i].base := SliceBase(share, i);
      }
      Size := share;
      pool := buffer;
      forall j, k | 0 <= j < k < |cpus|
        ensures cpus[j].base + Size <= cpus[k].base
      {
        SlicesApart(share, j, k);
      }
      forall j | 0 <= j < |cpus|
        ensures cpus[j].InBuffer(Size)
      {
        SlicesApart(share, j, |cpus|);
      }
    }

    /** BIOCSETBUFFERSIZE: one allocation of `dim` bytes shared out, or none if the shares are too small. */
    method SetBufferSize(dim: U32, memory: bool) returns (ok: bool)
      requires Valid() && Quiet()
      modifies this, cpus
      ensures Valid() && cpus == old(cpus)
      ensures ok == (memory || dim / |cpus| < HEADER)
      ensures !ok ==> unchanged(this) && forall i :: 0 <= i < |cpus| ==> unchanged(cpus[i])
      ensures ok ==>
                && Size == (if dim / |cpus| < HEADER then 0 else dim / |cpus|)
                && fresh(pool) && pool.Length == (if dim / |cpus| < HEADER then 0 else dim)
      ensures ok && Size > 0 ==>
                && Init(sys)
                && forall i :: 0 <= i < |cpus| ==> cpus[i].base == Size * i && cpus[i].InBuffer(Size)
    {
      hide Running, Unset, Init;
      var n := |cpus|;
      var bytes := if dim / n < HEADER then 0 else dim;
      if bytes > 0 && !memory {
        return false;
      }
      ok := true;
      var buffer := new Byte[bytes];
      CapacityIsProduct(n, bytes / n);
      ShareIsShare(bytes, n);
      ShareOut(buffer, bytes / n);
      ResetBufferContents();
    }

    /** A counter, summed over the first `n` CPUs. */
    ghost function Sum(f: Counters -> nat, n: nat): nat
      reads `cpus, cpus
      requires n <= |cpus|
    {
      if n == 0 then 0 else Sum(f, n - 1) + f(Tally(cpus[n - 1]))
    }

    /** BIOCGSTATS. */
    method GetStats() returns (received: nat, dropped: nat, accepted: nat)
      requires Valid()
      ensures received == Sum(ReceivedOf, |cpus|) && dropped == Sum(DroppedOf, |cpus|)
      ensures accepted == Sum(AcceptedOf, |cpus|) == if Size == 0 then 0 else |sys.hist.log|
      ensures received == accepted + dropped + Sum(RejectedOf, |cpus|)
                          + if Size == 0 then 0 else Total(Undecided, sys.rings)
    {
      hide Running, Sliced, Unset, Total;
      received, dropped, accepted := 0, 0, 0;
      for i := 0 to |cpus|
        invariant received == Sum(ReceivedOf, i) && dropped == Sum(DroppedOf, i) && accepted == Sum(AcceptedOf, i)
      {
        accepted := accepted + cpus[i].Accepted;
        received := received + cpus[i].Received;
        dropped := dropped + cpus[i].Dropped;
      }
      if Size == 0 {
        UnsetSums(|cpus|);
      } else {
        RunningSums();
      }
    }

    lemma {:induction false} UnsetSums(n: nat)
      requires Unset() && n <= |cpus|
      ensures Sum(AcceptedOf, n) == 0 && Sum(ReceivedOf, n) == Sum(DroppedOf, n) + Sum(RejectedOf, n)
    {
      if n > 0 {
        UnsetSums(n - 1);
      }
    }

    lemma RunningSums()
      requires Valid() && Size > 0
      ensures Sum(AcceptedOf, |cpus|) == |sys.hist.log|
      ensures Sum(ReceivedOf, |cpus|)
              == Sum(AcceptedOf, |cpus|) + Sum(DroppedOf, |cpus|) + Sum(RejectedOf, |cpus|)
                 + Total(Undecided, sys.rings)
    {
      hide Total, Sum, Chain, RingOk, Mirror;
      LogIsAhead();
      SumsAgree(|cpus|);
      assert sys.rings[..|cpus|] == sys.rings;
    }

    /** The counters of the first `n` CPUs add up, and agree with the transition system. */
    lemma {:induction false} SumsAgree(n: nat)
      requires Valid() && Size > 0 && n <= |cpus| && |sys.rings| == |cpus|
      ensures Sum(AcceptedOf, n) == Total(RingSystem.Accepted, sys.rings[..n])
      ensures Sum(ReceivedOf, n)
              == Sum(AcceptedOf, n) + Sum(DroppedOf, n) + Sum(RejectedOf, n) + Total(Undecided, sys.rings[..n])
    {
      hide Total, Running, Sliced;
      if n == 0 {
        NoRings(RingSystem.Accepted);
        NoRings(Undecided);
        assert sys.rings[..n] == [];
      } else {
        SumsAgree(n - 1);
        CountersAgree(n - 1);
        TotalSnoc(RingSystem.Accepted, sys.rings, n - 1);
        TotalSnoc(Undecided, sys.rings, n - 1);
      }
    }

    lemma CountersAgree(i: nat)
      requires Valid() && Size > 0 && i < |cpus| && |sys.rings| == |cpus|
      ensures var t := Tally(cpus[i]);
              && t == sys.rings[i].counters
              && t.received == t.accepted + t.dropped + t.rejected + Undecided(sys.rings[i])
    {
      assert Mirror(cpus[i], Size, sys.rings[i]) && RingOk(Size, sys.rings[i]);
    }
  }

  lemma NoRings(f: Ring -> nat)
    ensures Total(f, []) == 0
  {
  }

  function ReceivedOf(t: Counters): nat { t.received }

  function AcceptedOf(t: Counters): nat { t.accepted }

  function DroppedOf(t: Counters): nat { t.dropped }

  function RejectedOf(t: Counters): nat { t.rejected }

  lemma {:induction false} TotalSnoc(f: Ring -> nat, rings: seq<Ring>, i: nat)
    requires i < |rings|
    ensures Total(f, rings[..i + 1]) == Total(f, rings[..i]) + f(rings[i])
  {
    if i > 0 {
      TotalSnoc(f, rings[1..], i - 1);
      assert rings[1..][..i] == rings[..i + 1][1..] && rings[1..][..i - 1] == rings[..i][1..];
    }
  }
}
