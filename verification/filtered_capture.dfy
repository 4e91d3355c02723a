/**
 The NT driver's filter in front of its capture buffers: the control request that installs a program,
 and the tap that runs it over as much of the packet as is at hand.
*/
module FilteredCapture {
  import opened Machine
  import opened BpfCode
  import opened BpfValidate
  import opened BpfSafety
  import opened BpfInterpreter
  import opened BpfLookahead
  import opened BpfLaws
  import RingImage
  import RingSystem
  import RingSafety
  import RingRuns
  import CpuRing
  import Capture

  /** The opcode that separates a program from initialisation code for the TME extensions. */
  const BPF_SEPARATION: U16 := 0xff

  const ZEROS: seq<U32> := [0, 0, 0, 0, 0, 0, 0, 0, 0, 0, 0, 0, 0, 0, 0, 0]

  datatype IoStatus = Success | BufferSmall | InvalidRequest | NoMemory

  predicate Plain(prog: seq<Insn>) {
    forall at :: 0 <= at < |prog| ==> prog[at].code != BPF_SEPARATION
  }

  /** What the tap shows the filter of the packet `hb + payload`. */
  function Seen(hb: seq<Byte>, payload: seq<Byte>, lookLen: nat, contiguous: bool): Env
    requires lookLen <= |payload| && |hb| + |payload| < TWO32
  {
    if contiguous then Flat(Ntx, hb + payload[..lookLen], |hb| + |payload|, |hb| + lookLen)
    else Split(Ntx, hb, payload[..lookLen], |hb| + |payload|, |hb| + lookLen)
  }

  /** LDB [k]; RET A. */
  function ByteFilter(k: U32): seq<Insn> {
    [Insn(0x30, 0, 0, k), Insn(0x16, 0, 0, 0)]
  }

  /** LD #len; RET A. */
  const LENGTH_FILTER: seq<Insn> := [Insn(0x80, 0, 0, 0), Insn(0x16, 0, 0, 0)]

  /** The filter sees each byte at hand in its place, none beyond, and the length of the whole packet. */
  lemma SeesThePacket(hb: seq<Byte>, payload: seq<Byte>, lookLen: nat, contiguous: bool, k: U32)
    requires lookLen <= |payload| && |hb| + |payload| < 0x8000_0000 && k < 0x8000_0000
    ensures var seen := Seen(hb, payload, lookLen, contiguous);
      && Run(ByteFilter(k), seen, Start(ZEROS), 2) ==
        (if k < |hb| + lookLen then Return((hb + payload)[k] as int) else OutOfBounds)
      && Run(LENGTH_FILTER, seen, Start(ZEROS), 2) == Return(|hb| + |payload|)
  {
    hide Step, Run;
    var f, seen, r := ByteFilter(k), Seen(hb, payload, lookLen, contiguous), Start(ZEROS);
    RunsOn(f, seen, r, 2);
    ByteSeen(hb, payload, lookLen, contiguous, k);
    if k < |hb| + lookLen {
      ReturnsA(f, seen, Step(f, seen, r).r);
    }
    RunsOn(LENGTH_FILTER, seen, r, 2);
    TransferLaw(LENGTH_FILTER, seen, r);
    ReturnsA(LENGTH_FILTER, seen, Step(LENGTH_FILTER, seen, r).r);
  }

  lemma ByteSeen(hb: seq<Byte>, payload: seq<Byte>, lookLen: nat, contiguous: bool, k: U32)
    requires lookLen <= |payload| && |hb| + |payload| < 0x8000_0000 && k < 0x8000_0000
    ensures Step(ByteFilter(k), Seen(hb, payload, lookLen, contiguous), Start(ZEROS)) ==
      if k < |hb| + lookLen then Next(Regs(1, (hb + payload)[k] as int, 0, ZEROS)) else OutOfBounds
  {
    assert k < |hb| + lookLen ==>
      (hb + payload)[k] == if k < |hb| then hb[k] else payload[..lookLen][k - |hb|];
  }

  lemma ReturnsA(f: seq<Insn>, env: Env, r: Regs)
    requires At(f, r, 0x16)
    ensures Run(f, env, r, 1) == Return(r.A)
  {
    hide Step;
    RunsOn(f, env, r, 1);
    ReturnLaw(f, env, r);
  }

  function Whole(hb: seq<Byte>, payload: seq<Byte>): Env
    requires |hb| + |payload| < TWO32
  {
    Flat(Ntx, hb + payload, |hb| + |payload|, |hb| + |payload|)
  }

  function Filtered(prog: Option<seq<Insn>>, env: Env): Outcome {
    match prog
    case None => Return(ACCEPT_ALL)
    case Some(f) => Run(f, env, Start(ZEROS), |f|)
  }

  predicate Installed(prog: Option<seq<Insn>>) {
    prog.Some? ==> NtxAccepted(prog.value)
  }

  /** In one piece, an installed filter always comes to a verdict unless it shifts too far. */
  lemma FilterDecides(prog: Option<seq<Insn>>, hb: seq<Byte>, payload: seq<Byte>, lookLen: nat)
    requires Installed(prog) && lookLen <= |payload| && |hb| + |payload| < 0x8000_0000
    ensures var o := Filtered(prog, Seen(hb, payload, lookLen, true));
      o.Return? || o == OutOfBounds || o == Fault(WideShift)
  {
    if prog.Some? {
      NtxProgramsGiveVerdicts(prog.value, Seen(hb, payload, lookLen, true), ZEROS);
    }
  }

  /** The loads of the run stay clear of the end of a separate header. */
  predicate Unsplit(prog: Option<seq<Insn>>, env: Env)
  {
    prog.Some? && env.Split? ==> AvoidsSplit(prog.value, env, Start(ZEROS), |prog.value|)
  }

  /**
   Unless the filter ends at a bounds test, what it says of the look-ahead is what it would say of the
   whole packet in one piece; with the header apart this holds exactly for runs that stay clear of the
   header's end.
   */
  lemma VerdictIsFinal(prog: Option<seq<Insn>>, hb: seq<Byte>, payload: seq<Byte>, lookLen: nat, contiguous: bool)
    requires Installed(prog) && lookLen <= |payload| && |hb| + |payload| < 0x8000_0000
    ensures var joined := Filtered(prog, Seen(hb, payload, lookLen, true));
      var seen := Seen(hb, payload, lookLen, contiguous);
      && (joined != OutOfBounds ==> joined == Filtered(prog, Whole(hb, payload)))
      && (Filtered(prog, seen) == joined <==> Unsplit(prog, seen))
  {
    if prog.Some? {
      var f, flat, seen := prog.value, Seen(hb, payload, lookLen, true), Seen(hb, payload, lookLen, contiguous);
      assert (hb + payload[..lookLen])[..flat.buflen] == (hb + payload)[..flat.buflen];
      LookAheadIsEnough(f, flat, Whole(hb, payload), Start(ZEROS), |f|);
      if !contiguous {
        assert Joined(seen) == flat;
        NtxProgramsGiveVerdicts(f, flat, ZEROS);
        TwoBuffersRefine(f, seen, Start(ZEROS), |f|);
      }
    }
  }

  // ---------------------------------------------------------------- installing a program

  /** How BIOCSETF answers a request; one without any buffer comes from an application's empty program. */
  function InstallStatus(input: Option<seq<Insn>>, memory: bool): IoStatus {
    match input
    case None => BufferSmall
    case Some(prog) =>
      if !(Plain(prog) && NtxAccepted(prog)) then InvalidRequest else if !memory then NoMemory else Success
  }

  /** The program in force after the request. */
  function FilterAfter(before: Option<seq<Insn>>, input: Option<seq<Insn>>, memory: bool): Option<seq<Insn>> {
    match InstallStatus(input, memory)
    case BufferSmall => before
    case Success => input
    case _ => None
  }

  /** A request that fails leaves the old program in force only if it came without a buffer. */
  lemma FailedRequestKeepsFilter(before: Option<seq<Insn>>, input: Option<seq<Insn>>, memory: bool)
    requires InstallStatus(input, memory) != Success
    ensures FilterAfter(before, input, memory) == before <==> input.None? || before.None?
  {
  }

  /** An instance that filters by Ethernet type accepts what it used to reject after a refused request. */
  lemma RefusedRequestAcceptsAll(hb: seq<Byte>, payload: seq<Byte>)
    requires |hb| == 14 && hb[12] == 0 && hb[13] == 0 && |hb| + |payload| < 0x8000_0000
    ensures Installed(Some(ETHER_TYPE))
    ensures InstallStatus(Some(DIVIDING_PROGRAM), true) == InvalidRequest
    ensures var after := FilterAfter(Some(ETHER_TYPE), Some(DIVIDING_PROGRAM), true);
      var seen := Seen(hb, payload, |payload|, false);
      Filtered(Some(ETHER_TYPE), seen) == Return(0) && Filtered(after, seen) == Return(ACCEPT_ALL)
  {
    assert DividesByZero(DIVIDING_PROGRAM[0]);
    assert payload[..|payload|] == payload;
    EtherTypeGoesWrong(Ntx, hb, payload, |hb| + |payload|, ZEROS);
  }

  /** The verdict of a run; of one that goes wrong, whatever value `undefined` C makes of it. */
  function Given(o: Outcome, undefined: U32): U32
    requires !o.Next?
  {
    if o.Fault? then undefined else Verdict(o)
  }

  /**
   A packet is rejected exactly if the program in force returns 0 for what it is shown of it or fails a
   bounds test; without a program none is.
   */
  predicate FollowsProgram(
      prog: Option<seq<Insn>>, hb: seq<Byte>, payload: seq<Byte>, lookLen: nat, contiguous: bool,
      outcome: Capture.Outcome)
    requires lookLen <= |payload| && |hb| + |payload| < TWO32
  {
    if prog.None? then outcome != Capture.Rejected
    else
      var o := Run(prog.value, Seen(hb, payload, lookLen, contiguous), Start(ZEROS), |prog.value|);
      !o.Fault? ==> (outcome == Capture.Rejected <==> o == Return(0) || o == OutOfBounds)
  }

  /** Of a packet that is stored as many bytes are kept as the program returns, or all. */
  predicate KeptByProgram(
      prog: Option<seq<Insn>>, hb: seq<Byte>, payload: seq<Byte>, lookLen: nat, contiguous: bool,
      kept: seq<Byte>)
    requires lookLen <= |payload| && |hb| + |payload| < TWO32
  {
    if prog.None? then kept == hb + payload
    else
      var o := Run(prog.value, Seen(hb, payload, lookLen, contiguous), Start(ZEROS), |prog.value|);
      o.Return? ==>
        kept <= hb + payload && |kept| <= o.v && (|kept| == o.v || |kept| == |hb| + |payload|)
  }

  lemma VerdictFollows(
      prog: Option<seq<Insn>>, hb: seq<Byte>, payload: seq<Byte>, lookLen: nat, contiguous: bool, undefined: U32,
      outcome: Capture.Outcome)
    requires lookLen <= |payload| && |hb| + |payload| < TWO32
    requires var o := Filtered(prog, Seen(hb, payload, lookLen, contiguous));
      !o.Next? && (outcome == Capture.Rejected <==> Given(o, undefined) == 0)
    ensures FollowsProgram(prog, hb, payload, lookLen, contiguous, outcome)
  {
    hide Run, Seen;
  }

  lemma VerdictKeeps(
      prog: Option<seq<Insn>>, hb: seq<Byte>, payload: seq<Byte>, lookLen: nat, contiguous: bool, undefined: U32,
      kept: seq<Byte>)
    requires lookLen <= |payload| && |hb| + |payload| + RingImage.HEADER < TWO32
    requires var o := Filtered(prog, Seen(hb, payload, lookLen, contiguous));
      && !o.Next? && kept <= hb + payload && |kept| <= Given(o, undefined)
      && (|kept| == Given(o, undefined) || |kept| == |hb| + |payload|)
    ensures KeptByProgram(prog, hb, payload, lookLen, contiguous, kept)
  {
    hide Run, Seen;
    if prog.None? {
      assert kept == (hb + payload)[..|kept|];
    }
  }

  class FilteredInstance {
    const open: Capture.OpenInstance
    var bpfprogram: Option<seq<Insn>>

    ghost predicate Valid()
      reads this, open, open.cpus, open.pool
    {
      open.Valid() && Installed(bpfprogram)
    }

    constructor (open: Capture.OpenInstance)
      requires open.Valid()
      ensures this.open == open && Valid() && bpfprogram == None
    {
      this.open := open;
      bpfprogram := None;
    }

    /**
     BIOCSETF. A request without a buffer changes nothing. Any other frees the old program before it looks
     at the new one, and empties the buffers in any case: if it fails, the instance is left without filter
     and accepts everything.
     */
    method SetFilter(input: Option<seq<Insn>>, memory: bool) returns (status: IoStatus)
      requires Valid() && (input.Some? ==> open.Quiet() && Countable(input.value))
      modifies this`bpfprogram, open`sys, open`ReaderSN, open`WriterSN, open.cpus
      ensures Valid() && status == InstallStatus(input, memory)
      ensures bpfprogram == FilterAfter(old(bpfprogram), input, memory)
      ensures input.None? ==> status == BufferSmall && bpfprogram == old(bpfprogram)
      ensures input.Some? && Plain(input.value) && NtxAccepted(input.value) ==>
        if memory then status == Success && bpfprogram == input else status == NoMemory && bpfprogram == None
      ensures input.Some? && !(Plain(input.value) && NtxAccepted(input.value)) ==>
        status == InvalidRequest && bpfprogram == None
      ensures status == BufferSmall ==>
        unchanged(this) && unchanged(open) && forall i :: 0 <= i < |open.cpus| ==> unchanged(open.cpus[i])
      ensures status != BufferSmall ==>
        && (open.Size > 0 ==> RingSystem.Init(open.sys))
        && forall i :: 0 <= i < |open.cpus| ==> open.Clear(open.cpus[i])
    {
      hide Accepted, Listed, Plain, Capture.OpenInstance.Running, Capture.OpenInstance.Unset, RingSystem.Init;
      hide Capture.OpenInstance.Sliced, Capture.OpenInstance.Quiet, Capture.OpenInstance.Clear;
      if input.None? {
        return BufferSmall;
      }
      bpfprogram := None;
      status := Install(input.value, memory);
      EmptyBuffers();
    }

    method EmptyBuffers()
      requires open.Valid() && open.Quiet()
      modifies open`sys, open`ReaderSN, open`WriterSN, open.cpus
      ensures open.Valid() && open.cpus == old(open.cpus)
      ensures open.Size > 0 ==> RingSystem.Init(open.sys)
      ensures forall i :: 0 <= i < |open.cpus| ==> open.Clear(open.cpus[i])
    {
      hide Capture.OpenInstance.Running, Capture.OpenInstance.Unset, RingSystem.Init;
      if open.Size > 0 {
        ReadyToReset();
      }
      open.ResetBufferContents();
    }

    method Install(prog: seq<Insn>, memory: bool) returns (status: IoStatus)
      requires Countable(prog) && bpfprogram == None
      modifies this`bpfprogram
      ensures status == InstallStatus(Some(prog), memory)
      ensures bpfprogram == FilterAfter(None, Some(prog), memory)
    {
      hide Accepted, Listed;
      var cnt := 0;
      while cnt < |prog| && prog[cnt].code != BPF_SEPARATION
        invariant 0 <= cnt <= |prog|
        invariant forall at :: 0 <= at < cnt ==> prog[at].code != BPF_SEPARATION
      {
        cnt := cnt + 1;
      }
      if cnt != |prog| {
        return InvalidRequest;
      }
      var ok := NtxValidate(prog);
      if !ok {
        return InvalidRequest;
      }
      if !memory {
        return NoMemory;
      }
      bpfprogram := Some(prog);
      return Success;
    }

    lemma ReadyToReset()
      requires open.Valid() && open.Size > 0
      ensures RingImage.HEADER <= open.Size && RingSystem.Capacity(|open.cpus|, open.Size) < TWO32
      ensures forall i :: 0 <= i < |open.cpus| ==> open.cpus[i].InBuffer(open.Size)
    {
      assert RingSystem.RingOk(open.Size, open.sys.rings[0]);
      forall i | 0 <= i < |open.cpus|
        ensures open.cpus[i].InBuffer(open.Size)
      {
        assert Capture.Mirror(open.cpus[i], open.Size, open.sys.rings[i]);
      }
    }

    method RunFilter(hb: seq<Byte>, payload: seq<Byte>, lookLen: nat, contiguous: bool) returns (o: Outcome)
      requires Installed(bpfprogram) && lookLen <= |payload| && |hb| + |payload| < TWO32
      ensures o == Filtered(bpfprogram, Seen(hb, payload, lookLen, contiguous)) && !o.Next?
    {
      hide Run, Accepted, Listed;
      var look := payload[..lookLen];
      if contiguous {
        o := BpfFilter(Ntx, bpfprogram, hb + look, |hb| + |payload|, |hb| + lookLen, ZEROS);
      } else {
        o := BpfFilterWith2Buffers(Ntx, bpfprogram, hb, look, |hb| + |payload|, |hb| + lookLen, ZEROS);
      }
    }

    /**
     NPF_tap with its filter. A packet is rejected exactly if the filter says so, by returning 0 or at a
     bounds test; otherwise it is stored, deferred or dropped as the verdict asks. If the run of the filter
     goes wrong, the verdict is some value `undefined`.
     */
    method Tap(i: nat, hb: seq<Byte>, payload: seq<Byte>, lookLen: nat, contiguous: bool,
               sec: U32, usec: U32, pools: CpuRing.Pools, pending: bool, undefined: U32)
      returns (outcome: Capture.Outcome, ghost run: seq<RingSystem.Step>)
      requires Valid() && i < |open.cpus| && lookLen <= |payload| && |hb| + |payload| + RingImage.HEADER < TWO32
      modifies open`sys, open`WriterSN, open.cpus[i], open.pool
      ensures Valid() && (open.Size > 0 ==> RingSafety.Runs(old(open.sys), run, open.sys) && open.OthersIntact(i))
      ensures var o := Filtered(bpfprogram, Seen(hb, payload, lookLen, contiguous));
        && !o.Next?
        && open.Tapped(i, hb, payload, lookLen, Given(o, undefined), sec, usec, pools, pending, outcome)
      ensures FollowsProgram(bpfprogram, hb, payload, lookLen, contiguous, outcome)
      ensures outcome == Capture.Stored ==>
        && open.Size > 0 && open.sys.hist.log != []
        && KeptByProgram(bpfprogram, hb, payload, lookLen, contiguous,
             open.sys.hist.log[|open.sys.hist.log| - 1].data)
    {
      hide Run, Accepted, Listed, RingSafety.Runs, RingRuns.NewPacket;
      hide Capture.OpenInstance.Running, Capture.OpenInstance.Unset, Capture.OpenInstance.Sliced, Filtered;
      hide FollowsProgram, KeptByProgram, Given;
      var o := RunFilter(hb, payload, lookLen, contiguous);
      outcome, run := open.Tap(i, hb, payload, lookLen, contiguous, Given(o, undefined), sec, usec, pools, pending);
      VerdictFollows(bpfprogram, hb, payload, lookLen, contiguous, undefined, outcome);
      if outcome == Capture.Stored {
        ghost var kept := open.sys.hist.log[|open.sys.hist.log| - 1].data;
        VerdictKeeps(bpfprogram, hb, payload, lookLen, contiguous, undefined, kept);
      }
    }

    /** A request and the packet after it: what the request leaves in force decides about the packet. */
    method RequestThenTap(input: Option<seq<Insn>>, memory: bool,
                          i: nat, hb: seq<Byte>, payload: seq<Byte>, lookLen: nat, contiguous: bool,
                          sec: U32, usec: U32, pools: CpuRing.Pools, pending: bool, undefined: U32)
      returns (status: IoStatus, outcome: Capture.Outcome)
      requires Valid() && (input.Some? ==> open.Quiet() && Countable(input.value))
      requires i < |open.cpus| && lookLen <= |payload| && |hb| + |payload| + RingImage.HEADER < TWO32
      modifies this`bpfprogram, open`sys, open`ReaderSN, open`WriterSN, open.cpus, open.pool
      ensures Valid()
      ensures input.Some? && Plain(input.value) && NtxAccepted(input.value) && memory ==>
        status == Success && FollowsProgram(input, hb, payload, lookLen, contiguous, outcome)
      ensures input.Some? && !(Plain(input.value) && NtxAccepted(input.value) && memory) ==>
        status != Success && FollowsProgram(None, hb, payload, lookLen, contiguous, outcome)
      ensures input.None? ==>
        status != Success && FollowsProgram(old(bpfprogram), hb, payload, lookLen, contiguous, outcome)
    {
      hide Accepted, Listed, Plain, FollowsProgram, KeptByProgram, RingSafety.Runs, RingSystem.Init;
      hide Capture.OpenInstance.Running, Capture.OpenInstance.Unset, Capture.OpenInstance.Sliced;
      hide Capture.OpenInstance.Tapped, Filtered;
      status := SetFilter(input, memory);
      ghost var run;
      outcome, run := Tap(i, hb, payload, lookLen, contiguous, sec, usec, pools, pending, undefined);
    }
  }
}
