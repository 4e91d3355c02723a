/**
 Accepted programs run to completion: the program counter only moves forward and stays in the
 program, scratch indices stay in the scratch memory, and what can still go wrong is named exactly.
*/
module BpfSafety {
  import opened Machine
  import opened BpfCode
  import opened BpfValidate

  predicate RegsOk(f: seq<Insn>, r: Regs) {
    r.pc < |f| && |r.mem| == BPF_MEMWORDS
  }

  // ---------------------------------------------------------------- hazards of one instruction

  /** The load this instruction makes, if it makes one. */
  function Offset(i: Insn, r: Regs): Option<Access> {
    match Decode(i.code)
    case LdAbs(w) => Some(Access(w, i.k, false))
    case LdInd(w) => Some(Access(w, (r.X + i.k) % TWO32, true))
    case LdxMsh => Some(Access(Octet, i.k, false))
    case _ => None
  }

  predicate ShiftsWide(i: Insn, r: Regs) {
    || ((Decode(i.code) == Alu(Lsh, false) || Decode(i.code) == Alu(Rsh, false)) && i.k >= 32)
    || ((Decode(i.code) == Alu(Lsh, true) || Decode(i.code) == Alu(Rsh, true)) && r.X >= 32)
  }

  /** An offset that is negative as an `int` and that the bounds test lets through all the same. */
  predicate Wild(env: Env, a: Access) {
    a.k >= 0x8000_0000 && Passes(env, a)
  }

  predicate ReadsOutside(i: Insn, env: Env, r: Regs) {
    match Offset(i, r)
    case Some(a) => Wild(env, a)
    case None => false
  }

  predicate Hazard(i: Insn, env: Env, r: Regs) {
    DividesByZero(i) || ShiftsWide(i, r) || ReadsOutside(i, env, r)
  }

  /** A packet in one buffer that holds at least the `buflen` bytes announced. */
  predicate Sound(env: Env) {
    env.Flat? && env.buflen <= |env.p| && env.buflen < 0x8000_0000
  }

  /** The bounds test keeps a load in the packet exactly when it lets no negative offset through. */
  lemma LoadFault(env: Env, a: Access)
    requires Sound(env)
    ensures Load(env, a) == OUTSIDE <==> Wild(env, a)
  {
  }

  /** The NT driver's test never does. */
  lemma NtxLoadsAreSafe(env: Env, a: Access)
    requires Sound(env) && env.d == Ntx
    ensures !Wild(env, a)
    ensures Load(env, a).Value? <==> a.k + WidthBytes(a.w) <= env.buflen
  {
  }

  // ---------------------------------------------------------------- one step

  /**
   One step of an accepted program. It can fail only by dividing by a zero constant, by shifting
   32 places or more, or by a load with an offset that is negative as an `int`; and then it does.
  */
  lemma StepOfAccepted(f: seq<Insn>, env: Env, r: Regs)
    requires Accepted(f) && RegsOk(f, r) && Sound(env)
    ensures var o := Step(f, env, r);
      && (o.Next? ==> r.pc < o.r.pc && RegsOk(f, o.r))
      && (o == Fault(DivByZero) <==> DividesByZero(f[r.pc]))
      && (o == Fault(WideShift) <==> ShiftsWide(f[r.pc], r))
      && (o == Fault(BadRead) <==> ReadsOutside(f[r.pc], env, r))
      && o != Fault(BadPc) && o != Fault(BadScratch)
  {
    hide Step, Accepted, Sound, DividesByZero, ShiftsWide, ReadsOutside;
    StepMoves(f, env, r);
    StepFaults(f, env, r);
  }

  lemma StepMoves(f: seq<Insn>, env: Env, r: Regs)
    requires Accepted(f) && RegsOk(f, r)
    ensures var o := Step(f, env, r);
      && (o.Next? ==> r.pc < o.r.pc && RegsOk(f, o.r))
      && o != Fault(BadPc) && o != Fault(BadScratch)
  {
    hide Load, Encode, BitAnd, BitOr, ShiftLeft, ShiftRight, Satisfies, Targets, Accepted;
    if Decode(f[r.pc].code) != Unknown {
      StaysInside(f, r.pc);
    }
  }

  lemma StepFaults(f: seq<Insn>, env: Env, r: Regs)
    requires r.pc < |f| && Sound(env)
    ensures var o := Step(f, env, r);
      && (o == Fault(DivByZero) <==> DividesByZero(f[r.pc]))
      && (o == Fault(WideShift) <==> ShiftsWide(f[r.pc], r))
      && (o == Fault(BadRead) <==> ReadsOutside(f[r.pc], env, r))
  {
    hide Load, Encode, BitAnd, BitOr, ShiftLeft, ShiftRight, Satisfies, Wild, Sound;
    match Offset(f[r.pc], r)
    case Some(a) => LoadFault(env, a);
    case None =>
  }

  /** What acceptance says about an understood instruction of the program. */
  lemma StaysInside(f: seq<Insn>, at: nat)
    requires Accepted(f) && at < |f| && Decode(f[at].code) != Unknown
    ensures var i, op := f[at], Decode(f[at].code);
      && (op != RetK && op != RetA && op != Ja && !op.Jump? ==> at + 1 < |f|)
      && (op == Ja ==> at + 1 + i.k < |f|)
      && (op.Jump? ==> at + 1 + i.jt < |f| && at + 1 + i.jf < |f|)
      && (UsesScratch(op) ==> i.k < BPF_MEMWORDS)
  {
    hide Decode, Encode;
    var i, op := f[at], Decode(f[at].code);
    EncodeInvertsDecode(i.code);
    if op == Ja || op.Jump? {
      JumpFields(op);
    } else {
      OtherFields(i, op, at, |f|);
    }
  }

  // ---------------------------------------------------------------- whole runs

  /** After `n` instructions an accepted program has ended or has moved on by `n` or more. */
  lemma {:induction false} RunAdvances(f: seq<Insn>, env: Env, r: Regs, n: nat)
    requires Accepted(f) && RegsOk(f, r)
    ensures var o := Run(f, env, r, n);
      && (o.Next? ==> r.pc + n <= o.r.pc && RegsOk(f, o.r))
      && o != Fault(BadPc) && o != Fault(BadScratch)
    decreases n
  {
    hide Step, Accepted;
    if n > 0 {
      StepMoves(f, env, r);
      var o := Step(f, env, r);
      if o.Next? {
        RunAdvances(f, env, o.r, n - 1);
      }
    }
  }

  /**
   Every accepted program, on every packet in one piece or in two and from every content of the scratch
   memory, ends within as many instructions as it has, however long it is left to run: it returns, fails
   a bounds test, or meets a hazard.
   */
  lemma EndsWithinLength(f: seq<Insn>, env: Env, mem: seq<U32>, n: nat)
    requires Accepted(f) && |mem| == BPF_MEMWORDS && |f| <= n
    ensures var o := Run(f, env, Start(mem), n);
      && o == Run(f, env, Start(mem), |f|)
      && (|| o.Return? || o == OutOfBounds
          || o == Fault(DivByZero) || o == Fault(WideShift) || o == Fault(BadRead))
  {
    hide Run, Legal;
    RunAdvances(f, env, Start(mem), |f|);
    OnlyFaults(Run(f, env, Start(mem), |f|));
    MoreFuel(f, env, Start(mem), |f|, n);
  }

  lemma OnlyFaults(o: Outcome)
    ensures o.Next? || o.Return? || o == OutOfBounds || o == Fault(BadPc) || o == Fault(BadScratch)
         || o == Fault(DivByZero) || o == Fault(WideShift) || o == Fault(BadRead)
  {
    match o
    case Fault(k) =>
      match k {
        case BadPc =>
        case BadScratch =>
        case BadRead =>
        case DivByZero =>
        case WideShift =>
      }
    case _ =>
  }

  /** More fuel than instructions changes nothing. */
  lemma {:induction false} MoreFuel(f: seq<Insn>, env: Env, r: Regs, n: nat, m: nat)
    requires n <= m && !Run(f, env, r, n).Next?
    ensures Run(f, env, r, m) == Run(f, env, r, n)
    decreases n
  {
    var o := Step(f, env, r);
    hide Step;
    if n > 0 && o.Next? {
      MoreFuel(f, env, o.r, n - 1, m - 1);
    }
  }

  /** After `n` instructions the run stands at state `r`. */
  predicate ReachesAt(f: seq<Insn>, env: Env, start: Regs, n: nat, r: Regs) {
    Run(f, env, start, n) == Next(r)
  }

  /** A run goes wrong if and only if it arrives at an instruction that is hazardous there and then. */
  lemma {:induction false} FaultsExactlyAtHazards(f: seq<Insn>, env: Env, r: Regs, n: nat)
    requires Accepted(f) && RegsOk(f, r) && Sound(env)
    ensures Run(f, env, r, n).Fault? <==>
      exists k: nat, q :: k < n && ReachesAt(f, env, r, k, q) && q.pc < |f| && Hazard(f[q.pc], env, q)
    decreases n
  {
    hide Step, Accepted, Sound, Hazard;
    if n > 0 {
      StepHazard(f, env, r);
      assert ReachesAt(f, env, r, 0, r);
      var o := Step(f, env, r);
      if o.Next? {
        StepOfAccepted(f, env, r);
        FaultsExactlyAtHazards(f, env, o.r, n - 1);
        assert forall k: nat, q :: 0 < k ==>
          (ReachesAt(f, env, r, k, q) <==> ReachesAt(f, env, o.r, k - 1, q));
        assert forall k: nat, q :: ReachesAt(f, env, o.r, k, q) ==> ReachesAt(f, env, r, k + 1, q);
      }
    }
  }

  lemma StepHazard(f: seq<Insn>, env: Env, r: Regs)
    requires Accepted(f) && RegsOk(f, r) && Sound(env)
    ensures Step(f, env, r).Fault? <==> Hazard(f[r.pc], env, r)
  {
    hide Step, Accepted, Sound, DividesByZero, ShiftsWide, ReadsOutside;
    StepOfAccepted(f, env, r);
    OnlyFaults(Step(f, env, r));
  }

  // ---------------------------------------------------------------- the NT driver

  /**
   In the NT driver, packet loads are safe whatever their offset, so a program its checker accepts
   gives a verdict on every packet unless it shifts by 32 places or more.
   */
  lemma NtxProgramsGiveVerdicts(f: seq<Insn>, env: Env, mem: seq<U32>)
    requires NtxAccepted(f) && Sound(env) && env.d == Ntx && |mem| == BPF_MEMWORDS
    ensures var o := Run(f, env, Start(mem), |f|); o.Return? || o == OutOfBounds || o == Fault(WideShift)
    ensures (forall at :: 0 <= at < |f| ==> !Shifts(f[at])) ==>
      var o := Run(f, env, Start(mem), |f|); o.Return? || o == OutOfBounds
  {
    hide Run;
    EndsWithinLength(f, env, mem, |f|);
    NtxNeverFaults(f, env, Start(mem), |f|);
  }

  /** Not by a constant below 32. */
  predicate Shifts(i: Insn) {
    match Decode(i.code)
    case Alu(Lsh, x) => x || i.k >= 32
    case Alu(Rsh, x) => x || i.k >= 32
    case _ => false
  }

  lemma {:induction false} NtxNeverFaults(f: seq<Insn>, env: Env, r: Regs, n: nat)
    requires NtxAccepted(f) && Sound(env) && env.d == Ntx && RegsOk(f, r)
    ensures Run(f, env, r, n) != Fault(DivByZero) && Run(f, env, r, n) != Fault(BadRead)
    ensures (forall at :: 0 <= at < |f| ==> !Shifts(f[at])) ==> Run(f, env, r, n) != Fault(WideShift)
    decreases n
  {
    hide Step, Accepted, Sound, Load, Passes;
    if n > 0 {
      StepOfAccepted(f, env, r);
      NtxStep(f, env, r);
      var o := Step(f, env, r);
      if o.Next? {
        NtxNeverFaults(f, env, o.r, n - 1);
      }
    }
  }

  lemma NtxStep(f: seq<Insn>, env: Env, r: Regs)
    requires NtxAccepted(f) && Sound(env) && env.d == Ntx && r.pc < |f|
    ensures !DividesByZero(f[r.pc]) && !ReadsOutside(f[r.pc], env, r)
    ensures ShiftsWide(f[r.pc], r) ==> Shifts(f[r.pc])
  {
    hide Wild, Accepted, Sound;
    match Offset(f[r.pc], r)
    case Some(a) => NtxLoadsAreSafe(env, a);
    case None =>
  }

  // ---------------------------------------------------------------- what the checker lets through

  /** The documented intent of the checker: safe, and no division by a zero constant. */
  predicate Intended(f: seq<Insn>) {
    Accepted(f) && forall at :: 0 <= at < |f| ==> !DividesByZero(f[at])
  }

  const DIVIDING_PROGRAM := [Insn(0x34, 0, 0, 0), Insn(0x06, 0, 0, 0)]

  /** DIV #0; RET #0 is accepted, and divides by zero on every packet. */
  lemma DivisionByZeroIsAccepted(env: Env, mem: seq<U32>)
    ensures Accepted(DIVIDING_PROGRAM) && !Intended(DIVIDING_PROGRAM)
    ensures Run(DIVIDING_PROGRAM, env, Start(mem), 2) == Fault(DivByZero)
  {
    var f := DIVIDING_PROGRAM;
    assert DividesByZero(f[0]);
  }

  const NEGATIVE_LOAD := [Insn(0x30, 0, 0, 0xffff_ffff), Insn(0x06, 0, 0, 0)]

  /** LDB [0xffffffff]; RET #0 is accepted, and reads the byte before every packet. */
  lemma NegativeOffsetIsAccepted(p: seq<Byte>, wirelen: U32, mem: seq<U32>)
    requires |p| < 0x8000_0000
    ensures Accepted(NEGATIVE_LOAD)
    ensures Run(NEGATIVE_LOAD, Flat(Vxd, p, wirelen, |p|), Start(mem), 2) == Fault(BadRead)
  {
  }
}
