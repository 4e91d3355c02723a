/**
 The interpreters: a loop over `pc`, `A`, `X` and an array of scratch words, proved to compute the
 runs of the machine, for a packet in one buffer and for a packet in two.
*/
module BpfInterpreter {
  import opened Machine
  import opened BpfCode
  import opened BpfValidate
  import opened BpfSafety

  const ACCEPT_ALL: U32 := 0xffff_ffff

  /** One pass through the switch: the registers and the scratch memory after it, or the result. */
  method Switch(i: Insn, env: Env, at: nat, A0: U32, X0: U32, mem: array<U32>)
    returns (end: Option<Outcome>, pc: nat, A: U32, X: U32)
    requires mem.Length == BPF_MEMWORDS
    requires UsesScratch(Decode(i.code)) ==> i.k < BPF_MEMWORDS
    modifies mem
    ensures Exec(i, env, Regs(at, A0, X0, old(mem[..]))) ==
      if end.Some? then end.value else Next(Regs(pc, A, X, mem[..]))
    ensures end.Some? ==> !end.value.Next?
  {
    hide Load, Calc, Satisfies, BitAnd, Encode;
    pc, A, X := at + 1, A0, X0;
    end := None;
    match Decode(i.code) {
      case Unknown => end := Some(Return(0));
      case RetK => end := Some(Return(i.k));
      case RetA => end := Some(Return(A));
      case LdAbs(w) => end, A := Use(Load(env, Access(w, i.k, false)), A);
      case LdInd(w) => end, A := Use(Load(env, Access(w, (X + i.k) % TWO32, true)), A);
      case LdxMsh =>
        var b: U32;
        end, b := Use(Load(env, Access(Octet, i.k, false)), 0);
        X := b % 16 * 4;
      case LdLen => A := env.wirelen;
      case LdxLen => X := env.wirelen;
      case LdImm => A := i.k;
      case LdxImm => X := i.k;
      case LdMem => A := mem[i.k];
      case LdxMem => X := mem[i.k];
      case St => mem[i.k] := A;
      case Stx => mem[i.k] := X;
      case Ja => pc := pc + i.k;
      case Jump(c, x) =>
        if Satisfies(c, x, A, if x then X else i.k) {
          pc := pc + i.jt;
        } else {
          pc := pc + i.jf;
        }
      case Alu(a, x) => end, A := Use(Calc(a, x, A, if x then X else i.k), A);
      case Neg => A := (TWO32 - A) % TWO32;
      case Tax => X := A;
      case Txa => A := X;
    }
  }

  /** Takes the value of an expression, or leaves the program where the expression ends it. */
  method Use(g: Got, otherwise: U32) returns (end: Option<Outcome>, v: U32)
    ensures if g.Stop? then end == Some(g.o) && v == otherwise else end == None && v == g.v
  {
    if g.Stop? {
      return Some(g.o), otherwise;
    }
    return None, g.v;
  }

  /**
   The interpreter's loop. The driver runs only programs its checker has accepted; `scratch` stands
   for the uninitialised scratch memory, and an outcome `Fault` for C's undefined behaviour.
  */
  method Interpret(f: seq<Insn>, env: Env, scratch: seq<U32>) returns (o: Outcome)
    requires Accepted(f) && |scratch| == BPF_MEMWORDS
    ensures o == Run(f, env, Start(scratch), |f|)
    ensures !o.Next?
  {
    hide Run, Exec, Accepted, Legal, Decode, UsesScratch, RegsOk, Load;
    NotEmpty(f);
    var mem := Scratch(scratch);
    var A: U32, X: U32, pc := 0, 0, 0;
    ghost var fuel, goal := |f|, Run(f, env, Start(scratch), |f|);
    var end := None;
    while end.None?
      invariant fresh(mem) && mem.Length == BPF_MEMWORDS
      invariant end.None? ==> pc < |f| && |f| - pc <= fuel && Run(f, env, Regs(pc, A, X, mem[..]), fuel) == goal
      invariant end.Some? ==> end.value == goal && !goal.Next?
      decreases end.None?, |f| - pc
    {
      ghost var r := Regs(pc, A, X, mem[..]);
      Advances(f, env, r, fuel);
      end, pc, A, X := Switch(f[pc], env, pc, A, X, mem);
      fuel := fuel - 1;
    }
    return end.value;
  }

  method Scratch(words: seq<U32>) returns (mem: array<U32>)
    ensures fresh(mem) && mem[..] == words
  {
    mem := new U32[|words|](i requires 0 <= i < |words| => words[i]);
  }

  lemma NotEmpty(f: seq<Insn>)
    requires Accepted(f)
    ensures 1 <= |f|
  {
  }

  lemma Advances(f: seq<Insn>, env: Env, r: Regs, n: nat)
    requires Accepted(f) && r.pc < |f| && |r.mem| == BPF_MEMWORDS && 0 < n
    ensures UsesScratch(Decode(f[r.pc].code)) ==> f[r.pc].k < BPF_MEMWORDS
    ensures var o := Exec(f[r.pc], env, r);
      if o.Next? then r.pc < o.r.pc < |f| && Run(f, env, r, n) == Run(f, env, o.r, n - 1)
      else Run(f, env, r, n) == o
  {
    hide Exec, Accepted, Decode;
    StepMoves(f, env, r);
    if Decode(f[r.pc].code) != Unknown {
      StaysInside(f, r.pc);
    }
  }

  /** No filter means accept all. */
  method BpfFilter(
      d: Dialect, prog: Option<seq<Insn>>, p: seq<Byte>, wirelen: U32, buflen: U32, scratch: seq<U32>)
    returns (o: Outcome)
    requires prog.Some? ==> Accepted(prog.value)
    requires |scratch| == BPF_MEMWORDS
    ensures o == if prog.None? then Return(ACCEPT_ALL)
      else Run(prog.value, Flat(d, p, wirelen, buflen), Start(scratch), |prog.value|)
    ensures !o.Next?
  {
    if prog.None? {
      return Return(ACCEPT_ALL);
    }
    o := Interpret(prog.value, Flat(d, p, wirelen, buflen), scratch);
  }

  method BpfFilterWith2Buffers(
      d: Dialect, prog: Option<seq<Insn>>, p: seq<Byte>, pd: seq<Byte>, wirelen: U32, buflen: U32, scratch: seq<U32>)
    returns (o: Outcome)
    requires prog.Some? ==> Accepted(prog.value)
    requires |scratch| == BPF_MEMWORDS
    ensures o == if prog.None? then Return(ACCEPT_ALL)
      else Run(prog.value, Split(d, p, pd, wirelen, buflen), Start(scratch), |prog.value|)
    ensures !o.Next?
  {
    if prog.None? {
      return Return(ACCEPT_ALL);
    }
    o := Interpret(prog.value, Split(d, p, pd, wirelen, buflen), scratch);
  }
}
