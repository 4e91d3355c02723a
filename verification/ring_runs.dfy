/**
 The runs of the transition system that single calls of the driver amount to: a stored packet, a
 deferred one and its completion, a packet given up, and one packet copied out by the reader.
*/
module RingRuns {
  import opened Machine
  import opened RingImage
  import opened RingWrite
  import opened RingSystem
  import opened RingSafety

  lemma {:induction false} RunsAppend(s: System, a: seq<Step>, t: System, b: seq<Step>, u: System)
    requires Runs(s, a, t) && Runs(t, b, u)
    ensures Runs(s, a + b, u)
    decreases |a|
  {
    if |a| == 0 {
      assert a + b == b;
    } else {
      assert (a + b)[1..] == a[1..] + b;
      RunsAppend(Apply(s, a[0]), a[1..], t, b, u);
    }
  }

  lemma RunsOne(s: System, step: Step)
    requires Enabled(s, step)
    ensures Runs(s, [step], Apply(s, step))
  {
    assert [step][1..] == [];
  }

  lemma RunsCons(s: System, step: Step, run: seq<Step>, t: System)
    requires Enabled(s, step) && Runs(Apply(s, step), run, t)
    ensures Runs(s, [step] + run, t)
  {
    RunsOne(s, step);
    RunsAppend(s, [step], Apply(s, step), run, t);
  }

  lemma RunsSnoc(s: System, a: seq<Step>, t: System, step: Step)
    requires Runs(s, a, t) && Enabled(t, step)
    ensures Runs(s, a + [step], Apply(t, step))
  {
    RunsOne(t, step);
    RunsAppend(s, a, t, [step], Apply(t, step));
  }

  lemma Overwrite(rings: seq<Ring>, i: nat, a: Ring, b: Ring)
    requires i < |rings|
    ensures rings[i := a][i := b] == rings[i := b]
  {
  }

  /** The log entry of a packet accepted now. */
  function NewPacket(sec: U32, usec: U32, datalen: U32, data: seq<Byte>): Packet
    requires |data| < TWO32
  {
    Packet(TapHeader(sec, usec, |data|, datalen), data)
  }

  /** The ring after the packet reserved in it has been stored, numbered and published. */
  ghost function Completed(r: Ring, sn: U32, idx: nat, pkt: Packet): Ring
    requires Fits(|r.img|, r.P, |pkt.data|)
  {
    var n := |pkt.data|;
    Counted(r, 0, 1, 0, 0).(img := RecordImage(r.img, r.P, sn, pkt.hdr, pkt.data),
      P := Next(|r.img|, r.P, n), free := r.free - Increment(|r.img|, r.P, n),
      q := r.q + [Entry(idx, pkt)], prod := Idle)
  }

  ghost function WithPacket(s: System, i: nat, r: Ring, pkt: Packet): System
    requires i < |s.rings|
  {
    s.(rings := s.rings[i := r], writerSN := (s.writerSN + 1) % TWO32,
       hist := s.hist.(log := s.hist.log + [pkt], owner := s.hist.owner + [i]))
  }

  // ---------------------------------------------------------------- moves into the ring

  /** One step of the transition system for every single memory move. */
  ghost function WriteSteps(i: nat, s: seq<Byte>, cs: seq<Copy>): seq<Step>
    decreases |cs|
  {
    if cs == [] || cs[0].off + |cs[0].data| > |s| then []
    else
      var t := Blit(s, cs[0].off, cs[0].data);
      [Write(i, t)] + WriteSteps(i, t, cs[1..])
  }

  function WithImage(s: System, i: nat, img: seq<Byte>): System
    requires i < |s.rings|
  {
    s.(rings := s.rings[i := s.rings[i].(img := img)])
  }

  /** Moves that stay inside the reserved bytes are steps of the producer, whatever else is going on. */
  lemma {:induction false} WritesRun(s: System, i: nat, cs: seq<Copy>, t: seq<Byte>)
    requires Inv(s) && i < |s.rings| && !s.rings[i].prod.Idle?
    requires StepByStep(s.rings[i].img, t, cs, s.rings[i].P, Reservation(s.rings[i].prod))
    ensures Runs(s, WriteSteps(i, s.rings[i].img, cs), WithImage(s, i, t)) && Inv(WithImage(s, i, t))
    decreases |cs|
  {
    hide Inv, OnlyWithin;
    var r := s.rings[i];
    if cs == [] {
      assert s.rings[i := r] == s.rings;
    } else {
      var img := Blit(r.img, cs[0].off, cs[0].data);
      MoveStaysWithin(r.img, cs[0], r.P, Reservation(r.prod));
      var s1 := Apply(s, Write(i, img));
      StepKeeps(s, Write(i, img));
      WritesRun(s1, i, cs[1..], t);
      Overwrite(s.rings, i, s1.rings[i], r.(img := t));
      RunsCons(s, Write(i, img), WriteSteps(i, img, cs[1..]), WithImage(s, i, t));
    }
  }

  /**
   The missing bytes, if any, then time stamp and number, the other stores of the record, and the update
   of `Free`: the record is stored by the moves `fill` before it is numbered and `moves` after.
   */
  lemma CompleteRun(s: System, i: nat, sec: U32, usec: U32, mid: seq<Byte>, fill: seq<Copy>, moves: seq<Copy>)
    returns (run: seq<Step>, t: System)
    requires Inv(s) && i < |s.rings| && s.rings[i].prod.Reserved? && |s.rings[i].prod.data| < TWO32
    requires var r := s.rings[i];
             && Fits(|r.img|, r.P, |r.prod.data|)
             && StepByStep(r.img, mid, fill, r.P, HEADER + |r.prod.data|)
             && StepByStep(mid, NewImage(s, i, sec, usec), moves, r.P, HEADER + |r.prod.data|)
    ensures Runs(s, run, t) && Inv(t)
    ensures run == WriteSteps(i, s.rings[i].img, fill) + [Assign(i, sec, usec)]
                   + WriteSteps(i, mid, moves) + [Publish(i)]
    ensures var r := s.rings[i];
            var pkt := NewPacket(sec, usec, r.prod.datalen, r.prod.data);
            t == WithPacket(s, i, Completed(r, s.writerSN, |s.hist.log|, pkt), pkt)
  {
    hide Runs, Inv, RecordImage, StepByStep, Completed, WriteSteps;
    var s1 := WithImage(s, i, mid);
    WritesRun(s, i, fill, mid);
    var s2 := Apply(s1, Assign(i, sec, usec));
    StepKeeps(s1, Assign(i, sec, usec));
    RunsSnoc(s, WriteSteps(i, s.rings[i].img, fill), s1, Assign(i, sec, usec));
    var img := NewImage(s, i, sec, usec);
    Overwrite(s.rings, i, s1.rings[i], s2.rings[i]);
    WritesRun(s2, i, moves, img);
    var s3 := WithImage(s2, i, img);
    Overwrite(s.rings, i, s2.rings[i], s3.rings[i]);
    var first := WriteSteps(i, s.rings[i].img, fill) + [Assign(i, sec, usec)];
    RunsAppend(s, first, s2, WriteSteps(i, mid, moves), s3);
    ReadyToPublish(s, i, sec, usec, mid, s3);
    t := Apply(s3, Publish(i));
    StepKeeps(s3, Publish(i));
    RunsSnoc(s, first + WriteSteps(i, mid, moves), s3, Publish(i));
    run := first + WriteSteps(i, mid, moves) + [Publish(i)];
    Overwrite(s.rings, i, s3.rings[i], t.rings[i]);
    PublishedIs(s, i, sec, usec, mid, s3);
  }

  /** The image with the reserved packet of CPU `i` stored under the next number. */
  ghost function NewImage(s: System, i: nat, sec: U32, usec: U32): seq<Byte>
    requires i < |s.rings| && s.rings[i].prod.Reserved? && |s.rings[i].prod.data| < TWO32
    requires Fits(|s.rings[i].img|, s.rings[i].P, |s.rings[i].prod.data|)
  {
    var r := s.rings[i];
    RecordImage(r.img, r.P, s.writerSN, NewPacket(sec, usec, r.prod.datalen, r.prod.data).hdr, r.prod.data)
  }

  /** All moves made: the packet numbered, its record complete. */
  ghost predicate AllStored(s: System, i: nat, sec: U32, usec: U32, s3: System) {
    && i < |s.rings| && s.rings[i].prod.Reserved? && |s.rings[i].prod.data| < TWO32
    && Fits(|s.rings[i].img|, s.rings[i].P, |s.rings[i].prod.data|)
    && var r := s.rings[i];
       var pkt := NewPacket(sec, usec, r.prod.datalen, r.prod.data);
       var r3 := Counted(r, 0, 1, 0, 0).(
         img := NewImage(s, i, sec, usec), prod := Numbered(Entry(|s.hist.log|, pkt)));
       s3 == WithPacket(s, i, r3, pkt)
  }

  lemma ReadyToPublish(s: System, i: nat, sec: U32, usec: U32, mid: seq<Byte>, s3: System)
    requires Inv(s) && AllStored(s, i, sec, usec, s3)
    ensures Enabled(s3, Publish(i))
  {
    hide Holds, Chain, Span, RecordImage, OnlyWithin, TapHeader;
    assert RingOk(s.size, s.rings[i]);
    NewRecordHolds(s, s.rings[i], sec, usec);
  }

  lemma PublishedIs(s: System, i: nat, sec: U32, usec: U32, mid: seq<Byte>, s3: System)
    requires AllStored(s, i, sec, usec, s3) && Enabled(s3, Publish(i))
    ensures var r := s.rings[i];
            var pkt := NewPacket(sec, usec, r.prod.datalen, r.prod.data);
            Apply(s3, Publish(i)) == WithPacket(s, i, Completed(r, s.writerSN, |s.hist.log|, pkt), pkt)
  {
    hide Holds, RecordImage, Next, Increment;
    var r3 := s3.rings[i];
    Overwrite(s.rings, i, r3, Apply(s3, Publish(i)).rings[i]);
  }

  /** The record about to be stored is complete, and stays in the bytes reserved for it. */
  lemma NewRecordHolds(s: System, r: Ring, sec: U32, usec: U32)
    requires HistoryOk(s) && RingOk(s.size, r) && r.prod.Reserved? && |r.prod.data| < TWO32
    ensures var pkt := NewPacket(sec, usec, r.prod.datalen, r.prod.data);
            && Fits(|r.img|, r.P, |pkt.data|)
            && var img := RecordImage(r.img, r.P, s.writerSN, pkt.hdr, pkt.data);
               Holds(img, r.P, Entry(|s.hist.log|, pkt)) && OnlyWithin(r.img, img, r.P, Reservation(r.prod))
  {
    hide RecordImage;
    RecordHolds(r.img, r.P, |s.hist.log|, NewPacket(sec, usec, r.prod.datalen, r.prod.data).hdr, r.prod.data);
  }

  /** A packet taken in and stored at once, by the moves `moves`. */
  lemma StoreRun(
      s: System, i: nat, datalen: U32, data: seq<Byte>, sec: U32, usec: U32, moves: seq<Copy>)
    returns (run: seq<Step>, t: System)
    requires Inv(s) && i < |s.rings| && Takes(s.rings[i], |data|) && |data| < TWO32
    requires var r := s.rings[i];
             && Fits(|r.img|, r.P, |data|)
             && var img := RecordImage(r.img, r.P, s.writerSN, NewPacket(sec, usec, datalen, data).hdr, data);
                StepByStep(r.img, img, moves, r.P, HEADER + |data|)
    ensures Runs(s, run, t) && Inv(t) && |t.rings| == |s.rings|
    ensures run == StoreSteps(i, datalen, data, sec, usec, s.rings[i].img, moves)
    ensures var r := s.rings[i];
            var pkt := NewPacket(sec, usec, datalen, data);
            t == WithPacket(s, i, Completed(Counted(r, 1, 0, 0, 0), s.writerSN, |s.hist.log|, pkt), pkt)
  {
    hide Runs, Inv, Completed, StepByStep, RecordImage;
    AdmitFirst(s, i, datalen, data);
    var a := Admitted(s, i, datalen, data);
    var img := s.rings[i].img;
    assert StepByStep(img, img, [], s.rings[i].P, HEADER + |data|) by {
      NoMoves(img, s.rings[i].P, HEADER + |data|);
    }
    var run', t' := CompleteRun(a, i, sec, usec, img, [], moves);
    run, t := [Receive(i), Admit(i, datalen, data)] + run', t';
    RunsAppend(s, [Receive(i), Admit(i, datalen, data)], a, run', t);
    CompletedForgets(a.rings[i], Counted(s.rings[i], 1, 0, 0, 0), s.writerSN, |s.hist.log|,
                     NewPacket(sec, usec, datalen, data));
  }

  ghost function StoreSteps(
      i: nat, datalen: U32, data: seq<Byte>, sec: U32, usec: U32, img: seq<Byte>, moves: seq<Copy>): seq<Step>
  {
    [Receive(i), Admit(i, datalen, data)] + ([Assign(i, sec, usec)] + WriteSteps(i, img, moves) + [Publish(i)])
  }

  lemma NoMoves(s: seq<Byte>, p: nat, len: nat)
    ensures StepByStep(s, s, [], p, len)
  {
  }

  ghost function Admitted(s: System, i: nat, datalen: U32, data: seq<Byte>): System
    requires i < |s.rings|
  {
    s.(rings := s.rings[i := Counted(s.rings[i], 1, 0, 0, 0).(prod := Reserved(datalen, data))])
  }

  /** A packet arrives and passes filter and admission test. */
  lemma AdmitFirst(s: System, i: nat, datalen: U32, data: seq<Byte>)
    requires Inv(s) && i < |s.rings| && Takes(s.rings[i], |data|)
    ensures Runs(s, [Receive(i), Admit(i, datalen, data)], Admitted(s, i, datalen, data))
    ensures Inv(Admitted(s, i, datalen, data))
  {
    hide Inv, Runs;
    var s1 := Apply(s, Receive(i));
    var t := Apply(s1, Admit(i, datalen, data));
    StepKeeps(s, Receive(i));
    StepKeeps(s1, Admit(i, datalen, data));
    RunsOne(s, Receive(i));
    RunsSnoc(s, [Receive(i)], s1, Admit(i, datalen, data));
    assert [Receive(i)] + [Admit(i, datalen, data)] == [Receive(i), Admit(i, datalen, data)];
    Overwrite(s.rings, i, s1.rings[i], t.rings[i]);
  }

  lemma CompletedForgets(r: Ring, r': Ring, sn: U32, idx: nat, pkt: Packet)
    requires r' == r.(prod := r'.prod) && Fits(|r.img|, r.P, |pkt.data|)
    ensures Completed(r, sn, idx, pkt) == Completed(r', sn, idx, pkt)
  {
    hide RecordImage, Next, Increment;
  }

  /** A packet taken in whose missing bytes are still to come, or that is given up for lack of a descriptor. */
  lemma DeferRun(
      s: System, i: nat, datalen: U32, data: seq<Byte>, img: seq<Byte>, moves: seq<Copy>, ok: bool)
    returns (run: seq<Step>, t: System)
    requires Inv(s) && i < |s.rings| && Takes(s.rings[i], |data|)
    requires StepByStep(s.rings[i].img, img, moves, s.rings[i].P, HEADER + |data|)
    ensures Runs(s, run, t) && Inv(t)
    ensures run == DeferSteps(i, datalen, data, s.rings[i].img, moves, ok)
    ensures t == s.(rings := s.rings[i :=
                   if ok then Counted(s.rings[i], 1, 0, 0, 0).(img := img, prod := Reserved(datalen, data))
                   else Counted(s.rings[i], 1, 0, 1, 0).(img := img)])
  {
    hide Inv, Runs, StepByStep, WriteSteps;
    var first := [Receive(i), Admit(i, datalen, data)];
    AdmitFirst(s, i, datalen, data);
    var s1 := Admitted(s, i, datalen, data);
    WritesRun(s1, i, moves, img);
    t := WithImage(s1, i, img);
    run := first + WriteSteps(i, s.rings[i].img, moves);
    RunsAppend(s, first, s1, WriteSteps(i, s.rings[i].img, moves), t);
    Overwrite(s.rings, i, s1.rings[i], t.rings[i]);
    if !ok {
      var s2 := t;
      t := Apply(s2, Abandon(i));
      StepKeeps(s2, Abandon(i));
      RunsSnoc(s, run, s2, Abandon(i));
      run := run + [Abandon(i)];
      Overwrite(s.rings, i, s2.rings[i], t.rings[i]);
    }
  }

  ghost function DeferSteps(
      i: nat, datalen: U32, data: seq<Byte>, img: seq<Byte>, moves: seq<Copy>, ok: bool): seq<Step>
  {
    [Receive(i), Admit(i, datalen, data)] + WriteSteps(i, img, moves) + if ok then [] else [Abandon(i)]
  }

  /** A packet that is only counted: rejected by the filter, or dropped. */
  lemma CountRun(s: System, i: nat, step: Step) returns (t: System)
    requires Inv(s) && i < |s.rings|
    requires step == Reject(i) || (step.Drop? && step.cpu == i && Refuses(s.rings[i], step.n))
    ensures Runs(s, [Receive(i), step], t) && Inv(t)
    ensures t == s.(rings := s.rings[i :=
                   if step.Reject? then Counted(s.rings[i], 1, 0, 0, 1) else Counted(s.rings[i], 1, 0, 1, 0)])
  {
    hide Inv, Runs;
    var s1 := Apply(s, Receive(i));
    t := Apply(s1, step);
    StepKeeps(s, Receive(i));
    StepKeeps(s1, step);
    RunsOne(s, Receive(i));
    RunsSnoc(s, [Receive(i)], s1, step);
    assert [Receive(i)] + [step] == [Receive(i), step];
    Overwrite(s.rings, i, s1.rings[i], t.rings[i]);
  }

  // ---------------------------------------------------------------- the reader

  /** One packet delivered from the current ring. */
  ghost function AfterTake(s: System): System
    requires s.current < |s.rings|
    requires var r := s.rings[s.current];
             |r.q| > 0 && Fits(|r.img|, r.C, |r.q[0].pkt.data|)
  {
    var r := s.rings[s.current];
    var n := |r.q[0].pkt.data|;
    var r' := r.(C := Next(|r.img|, r.C, n), free := r.free + Increment(|r.img|, r.C, n), q := r.q[1..]);
    s.(rings := s.rings[s.current := r'],
       readerSN := (s.readerSN + 1) % TWO32, reader := Scanning, count := 0,
       hist := s.hist.(delivered := s.hist.delivered + [r.q[0].pkt]))
  }

  lemma AfterTakeForgets(s: System, t: System)
    requires t == s.(reader := t.reader) && s.current < |s.rings|
    requires var r := s.rings[s.current]; |r.q| > 0 && Fits(|r.img|, r.C, |r.q[0].pkt.data|)
    ensures AfterTake(t) == AfterTake(s)
  {
  }

  lemma CopyEnds(s: System)
    requires Inv(s) && s.reader.Copying?
    ensures s.current < |s.rings|
    ensures var r := s.rings[s.current];
            && |r.q| > 0 && Fits(|r.img|, r.C, |r.q[0].pkt.data|)
            && s.reader.hdr.caplen == |r.q[0].pkt.data| >= |s.reader.got|
  {
    hide U32At, Span;
    var r := s.rings[s.current];
    assert RingOk(s.size, r);
    assert Holds(r.img, r.C, r.q[0]);
  }

  /** The last step hands out the packet. */
  lemma ReleaseTakes(s: System)
    requires Inv(s) && Enabled(s, Release)
    requires var r := s.rings[s.current]; |r.q| > 0 && Fits(|r.img|, r.C, |r.q[0].pkt.data|)
    ensures Apply(s, Release) == AfterTake(s)
  {
    hide Holds, Chain, Span;
    ReleaseCopy(s);
  }

  function ReadBytes(n: nat): seq<Step> {
    if n == 0 then [] else [ReadByte] + ReadBytes(n - 1)
  }

  /** From any point of the copy, reading on and releasing delivers the packet. */
  lemma {:induction false} CopyRun(s: System) returns (run: seq<Step>)
    requires Inv(s) && s.reader.Copying?
    ensures s.current < |s.rings|
    ensures var r := s.rings[s.current]; |r.q| > 0 && Fits(|r.img|, r.C, |r.q[0].pkt.data|)
    ensures |s.reader.got| <= |s.rings[s.current].q[0].pkt.data|
    ensures Runs(s, run, AfterTake(s))
    ensures run == ReadBytes(|s.rings[s.current].q[0].pkt.data| - |s.reader.got|) + [Release]
    decreases |s.rings[s.current].q[0].pkt.data| - |s.reader.got|
  {
    hide Inv, AfterTake;
    CopyEnds(s);
    ReaderNeverStuck(s);
    if |s.reader.got| < s.reader.hdr.caplen {
      var s1 := Apply(s, ReadByte);
      StepKeeps(s, ReadByte);
      AfterTakeForgets(s, s1);
      var run' := CopyRun(s1);
      run := [ReadByte] + run';
      RunsCons(s, ReadByte, run', AfterTake(s1));
    } else {
      ReleaseTakes(s);
      run := [Release];
      RunsOne(s, Release);
    }
  }

  /** The reader finds the next packet in the current ring and delivers it. */
  lemma TakeRun(s: System) returns (run: seq<Step>)
    requires Inv(s) && Enabled(s, Start)
    ensures var r := s.rings[s.current]; |r.q| > 0 && Fits(|r.img|, r.C, |r.q[0].pkt.data|)
    ensures Runs(s, run, AfterTake(s)) && Inv(AfterTake(s))
    ensures run == [Start] + ReadBytes(|s.rings[s.current].q[0].pkt.data|) + [Release]
  {
    hide Inv, AfterTake, Hit;
    var s1 := Apply(s, Start);
    StepKeeps(s, Start);
    CopyEnds(s1);
    AfterTakeForgets(s, s1);
    var run' := CopyRun(s1);
    run := [Start] + run';
    RunsCons(s, Start, run', AfterTake(s1));
    RunKeeps(s, run, AfterTake(s));
  }
}
