/**
 Checks on the text of a program, beyond those the driver makes, with which acceptance means that the
 filter gives a verdict on every packet. They follow the index register along the jumps, so that the
 usual way to reach a transport header, LDX|MSH and then an indirect load, passes.
*/
module BpfStatic {
  import opened Machine
  import opened BpfCode
  import opened BpfValidate
  import opened BpfSafety

  /** The most that LDX|MSH puts into X. */
  const MSH_MAX: nat := 60

  // ---------------------------------------------------------------- how large X can be

  predicate LeavesX(op: Op) {
    op !in {LdxMsh, LdxLen, LdxImm, LdxMem, Tax}
  }

  predicate SetsXWithin(i: Insn, m: nat) {
    || (Decode(i.code) == LdxMsh && MSH_MAX <= m)
    || (Decode(i.code) == LdxImm && i.k <= m)
  }

  /** Along every way to instruction `at`, X was last set to at most `m`, or is still zero. */
  predicate BoundedX(f: seq<Insn>, at: nat, m: nat)
    decreases at
  {
    forall b :: 0 <= b < at && b < |f| && at in Targets(f[b], b) ==>
      SetsXWithin(f[b], m) || (LeavesX(Decode(f[b].code)) && BoundedX(f, b, m))
  }

  predicate XWithin(f: seq<Insn>, r: Regs, m: nat) {
    BoundedX(f, r.pc, m) ==> r.X <= m
  }

  /** The check is sound: where it says so, X is that small when the program gets there. */
  lemma StepKeepsBound(f: seq<Insn>, env: Env, r: Regs, m: nat)
    requires r.pc < |f| && XWithin(f, r, m) && Step(f, env, r).Next?
    ensures XWithin(f, Step(f, env, r).r, m)
  {
    var q := Step(f, env, r).r;
    GoesToTarget(f, env, r);
    XAfter(f, env, r, m);
  }

  lemma GoesToTarget(f: seq<Insn>, env: Env, r: Regs)
    requires r.pc < |f| && Step(f, env, r).Next?
    ensures r.pc < Step(f, env, r).r.pc && Step(f, env, r).r.pc in Targets(f[r.pc], r.pc)
  {
    hide Load, Calc, Satisfies, BoundedX;
  }

  lemma XAfter(f: seq<Insn>, env: Env, r: Regs, m: nat)
    requires r.pc < |f| && Step(f, env, r).Next?
    ensures LeavesX(Decode(f[r.pc].code)) ==> Step(f, env, r).r.X == r.X
    ensures SetsXWithin(f[r.pc], m) ==> Step(f, env, r).r.X <= m
  {
    hide Load, Calc, Satisfies, BoundedX;
  }

  // ---------------------------------------------------------------- programs without hazards

  predicate Tame(f: seq<Insn>, at: nat)
    requires at < |f|
  {
    var k := f[at].k;
    match Decode(f[at].code)
    case Alu(Div, false) => k != 0
    case Alu(Lsh, x) => if x then BoundedX(f, at, 31) else k < 32
    case Alu(Rsh, x) => if x then BoundedX(f, at, 31) else k < 32
    case LdAbs(_) => k < 0x8000_0000
    case LdxMsh => k < 0x8000_0000
    case LdInd(_) => BoundedX(f, at, MSH_MAX) && k + MSH_MAX < 0x8000_0000
    case _ => true
  }

  lemma TameInsn(f: seq<Insn>, env: Env, r: Regs)
    requires r.pc < |f| && Tame(f, r.pc) && XWithin(f, r, 31) && XWithin(f, r, MSH_MAX)
    ensures !Hazard(f[r.pc], env, r)
  {
    hide BoundedX, Passes;
  }

  lemma {:induction false} TameNeverFaults(f: seq<Insn>, env: Env, r: Regs, n: nat)
    requires Accepted(f) && RegsOk(f, r) && Sound(env) && XWithin(f, r, 31) && XWithin(f, r, MSH_MAX)
    requires forall at :: 0 <= at < |f| ==> Tame(f, at)
    ensures !Run(f, env, r, n).Fault?
    decreases n
  {
    hide Step, Accepted, Sound, Tame, Hazard, BoundedX, XWithin;
    if n > 0 {
      TameInsn(f, env, r);
      StepHazard(f, env, r);
      var o := Step(f, env, r);
      if o.Next? {
        StepMoves(f, env, r);
        StepKeepsBound(f, env, r, 31);
        StepKeepsBound(f, env, r, MSH_MAX);
        TameNeverFaults(f, env, o.r, n - 1);
      }
    }
  }

  /** With these checks, acceptance means that the filter always gives a verdict. */
  lemma TameProgramsGiveVerdicts(f: seq<Insn>, env: Env, mem: seq<U32>)
    requires Accepted(f) && Sound(env) && |mem| == BPF_MEMWORDS
    requires forall at :: 0 <= at < |f| ==> Tame(f, at)
    ensures var o := Run(f, env, Start(mem), |f|); o.Return? || o == OutOfBounds
  {
    hide Run, Tame, Sound;
    EndsWithinLength(f, env, mem, |f|);
    TameNeverFaults(f, env, Start(mem), |f|);
  }
}
