/**
 What every single instruction does, by its opcode number, in terms of the packet's bytes, of bits and of
 plain arithmetic; and what small programs built from them return.
*/
module BpfLaws {
  import opened Machine
  import opened BpfCode
  import opened BpfArithmetic
  import opened BpfValidate
  import opened BpfSafety

  /** The instruction about to be executed. */
  predicate At(f: seq<Insn>, r: Regs, code: U16) {
    r.pc < |f| && f[r.pc].code == code
  }

  // ---------------------------------------------------------------- moves between registers and memory

  lemma ReturnLaw(f: seq<Insn>, env: Env, r: Regs)
    ensures At(f, r, 0x06) ==> Step(f, env, r) == Return(f[r.pc].k)
    ensures At(f, r, 0x16) ==> Step(f, env, r) == Return(r.A)
  {
  }

  lemma TransferLaw(f: seq<Insn>, env: Env, r: Regs)
    ensures At(f, r, 0x00) ==> Step(f, env, r) == Next(Regs(r.pc + 1, f[r.pc].k, r.X, r.mem))
    ensures At(f, r, 0x01) ==> Step(f, env, r) == Next(Regs(r.pc + 1, r.A, f[r.pc].k, r.mem))
    ensures At(f, r, 0x80) ==> Step(f, env, r) == Next(Regs(r.pc + 1, env.wirelen, r.X, r.mem))
    ensures At(f, r, 0x81) ==> Step(f, env, r) == Next(Regs(r.pc + 1, r.A, env.wirelen, r.mem))
    ensures At(f, r, 0x07) ==> Step(f, env, r) == Next(Regs(r.pc + 1, r.A, r.A, r.mem))
    ensures At(f, r, 0x87) ==> Step(f, env, r) == Next(Regs(r.pc + 1, r.X, r.X, r.mem))
  {
    hide Load, Calc, Satisfies;
  }

  /** Scratch loads copy the word named to A or X; scratch stores change that word and no other. */
  lemma ScratchLaw(f: seq<Insn>, env: Env, r: Regs)
    requires |r.mem| == BPF_MEMWORDS && r.pc < |f| && f[r.pc].k < BPF_MEMWORDS
    ensures At(f, r, 0x60) ==> Step(f, env, r) == Next(Regs(r.pc + 1, r.mem[f[r.pc].k], r.X, r.mem))
    ensures At(f, r, 0x61) ==> Step(f, env, r) == Next(Regs(r.pc + 1, r.A, r.mem[f[r.pc].k], r.mem))
    ensures At(f, r, 0x02) || At(f, r, 0x03) ==>
      var o := Step(f, env, r);
      && o.Next? && o.r == r.(pc := r.pc + 1, mem := o.r.mem) && |o.r.mem| == |r.mem|
      && forall j :: 0 <= j < |r.mem| ==>
           o.r.mem[j] == if j != f[r.pc].k then r.mem[j] else if At(f, r, 0x02) then r.A else r.X
  {
  }

  // ---------------------------------------------------------------- jumps

  /** Signed order on words. */
  predicate SignedLess(a: U32, b: U32) {
    if a < 0x8000_0000 <==> b < 0x8000_0000 then a < b else b < 0x8000_0000
  }

  predicate ShareBit(a: U32, b: U32) {
    exists k :: 0 <= k < 32 && Bit(a, k) && Bit(b, k)
  }

  /** A conditional jump goes jt instructions on if its condition holds, and jf if not. */
  lemma JumpLaw(f: seq<Insn>, env: Env, r: Regs)
    requires r.pc < |f|
    ensures var i := f[r.pc];
      && (i.code == 0x05 ==> Jumps(f, env, r, i.k))
      && (i.code == 0x15 ==> Jumps(f, env, r, if r.A == i.k then i.jt else i.jf))
      && (i.code == 0x1d ==> Jumps(f, env, r, if r.A == r.X then i.jt else i.jf))
      && (i.code == 0x25 ==> Jumps(f, env, r, if SignedLess(i.k, r.A) then i.jt else i.jf))
      && (i.code == 0x2d ==> Jumps(f, env, r, if r.A > r.X then i.jt else i.jf))
      && (i.code == 0x35 ==> Jumps(f, env, r, if SignedLess(r.A, i.k) then i.jf else i.jt))
      && (i.code == 0x3d ==> Jumps(f, env, r, if r.A >= r.X then i.jt else i.jf))
  {
    hide Calc, Load;
  }

  lemma BitJumpLaw(f: seq<Insn>, env: Env, r: Regs)
    requires r.pc < |f|
    ensures var i := f[r.pc];
      && (i.code == 0x45 ==> Jumps(f, env, r, if ShareBit(r.A, i.k) then i.jt else i.jf))
      && (i.code == 0x4d ==> Jumps(f, env, r, if ShareBit(r.A, r.X) then i.jt else i.jf))
  {
    hide Calc, Load, BitAnd, Bit;
    JsetIsShareBit(false, r.A, f[r.pc].k);
    JsetIsShareBit(true, r.A, r.X);
  }

  lemma JsetIsShareBit(x: bool, a: U32, b: U32)
    ensures Satisfies(Jset, x, a, b) <==> ShareBit(a, b)
  {
    hide Satisfies;
    JsetSharesBit(x, a, b);
  }

  /** The step moves the program counter over `n` instructions, and does nothing else. */
  predicate Jumps(f: seq<Insn>, env: Env, r: Regs, n: nat) {
    Step(f, env, r) == Next(Regs(r.pc + 1 + n, r.A, r.X, r.mem))
  }

  // ---------------------------------------------------------------- arithmetic

  /** The step goes on to the next instruction with `a` in A, and changes nothing else. */
  predicate Yields(f: seq<Insn>, env: Env, r: Regs, a: U32) {
    Step(f, env, r) == Next(Regs(r.pc + 1, a, r.X, r.mem))
  }

  lemma AluStep(f: seq<Insn>, env: Env, r: Regs, op: Arith, x: bool)
    requires r.pc < |f| && Decode(f[r.pc].code) == Alu(op, x)
    ensures Operand(f[r.pc], r) == if x then r.X else f[r.pc].k
    ensures var g := Calc(op, x, r.A, Operand(f[r.pc], r));
      Step(f, env, r) == if g.Value? then Next(Regs(r.pc + 1, g.v, r.X, r.mem)) else g.o
  {
    hide Calc;
    SourceBit(f[r.pc].code, op, x);
  }

  lemma SourceBit(code: U16, op: Arith, x: bool)
    requires Decode(code) == Alu(op, x)
    ensures code / 8 % 2 == if x then 1 else 0
  {
    EncodeInvertsDecode(code);
  }

  function Operand(i: Insn, r: Regs): U32 {
    if i.code / 8 % 2 == 1 then r.X else i.k
  }

  lemma AddLaw(f: seq<Insn>, env: Env, r: Regs, a: U32)
    requires At(f, r, 0x04) || At(f, r, 0x0c)
    ensures Yields(f, env, r, a) <==> a == r.A + Operand(f[r.pc], r) || a == r.A + Operand(f[r.pc], r) - TWO32
  {
    hide Step;
    AluStep(f, env, r, Add, f[r.pc].code == 0x0c);
    Wraps(r.A + Operand(f[r.pc], r));
  }

  lemma SubLaw(f: seq<Insn>, env: Env, r: Regs, a: U32)
    requires At(f, r, 0x14) || At(f, r, 0x1c)
    ensures Yields(f, env, r, a) <==> a == r.A - Operand(f[r.pc], r) || a == r.A - Operand(f[r.pc], r) + TWO32
  {
    hide Step;
    AluStep(f, env, r, Sub, f[r.pc].code == 0x1c);
    Wraps(r.A - Operand(f[r.pc], r));
  }

  lemma NegLaw(f: seq<Insn>, env: Env, r: Regs, a: U32)
    requires At(f, r, 0x84)
    ensures Yields(f, env, r, a) <==> a + r.A == 0 || a + r.A == TWO32
  {
    Wraps(TWO32 - r.A);
  }

  lemma Wraps(y: int)
    requires -TWO32 <= y < 2 * TWO32
    ensures y % TWO32 == if y < 0 then y + TWO32 else if y < TWO32 then y else y - TWO32
  {
  }

  lemma MulLaw(f: seq<Insn>, env: Env, r: Regs, a: U32)
    requires At(f, r, 0x24) || At(f, r, 0x2c)
    ensures Yields(f, env, r, a) <==> exists q :: r.A * Operand(f[r.pc], r) == TWO32 * q + a
  {
    hide Step;
    AluStep(f, env, r, Mul, f[r.pc].code == 0x2c);
    var y := r.A * Operand(f[r.pc], r);
    assert Yields(f, env, r, y % TWO32);
    ModuloIs(y, TWO32, a);
  }

  lemma RemainderIs(y: int, p: nat, q: int, a: nat)
    requires a < p && y == p * q + a
    ensures y % p == a && y / p == q
  {
    var d := y / p;
    assert y == p * d + y % p;
    assert d < q ==> p * (d + 1) <= p * q;
    assert q < d ==> p * (q + 1) <= p * d;
  }

  lemma ModuloIs(y: int, p: nat, a: nat)
    requires a < p
    ensures y % p == a <==> exists q :: y == p * q + a
  {
    assert y == p * (y / p) + y % p;
    if q :| y == p * q + a {
      RemainderIs(y, p, q, a);
    }
  }

  lemma QuotientIs(a: U32, b: U32, q: U32)
    requires b > 0
    ensures Quotient(a, b) == q <==> q * b <= a < q * b + b
  {
    assert a == b * (a / b) + a % b;
    if q * b <= a < q * b + b {
      RemainderIs(a, b, q, a - q * b);
    }
  }

  /** The quotient is the number of divisors that fit; division by a zero X ends the program with 0. */
  lemma DivLaw(f: seq<Insn>, env: Env, r: Regs, a: U32)
    requires At(f, r, 0x34) || At(f, r, 0x3c)
    ensures var b := Operand(f[r.pc], r);
      && (b != 0 ==> (Yields(f, env, r, a) <==> a * b <= r.A < a * b + b))
      && (b == 0 ==> Step(f, env, r) == if At(f, r, 0x3c) then Return(0) else Fault(DivByZero))
  {
    hide Step, Quotient;
    AluStep(f, env, r, Div, f[r.pc].code == 0x3c);
    var b := Operand(f[r.pc], r);
    if b != 0 {
      QuotientIs(r.A, b, a);
    }
  }

  lemma AllBits(a: U32, b: U32, c: U32)
    ensures Combines(32, a, b, true, c) <==> forall k :: 0 <= k < 32 ==> (Bit(c, k) <==> Bit(a, k) && Bit(b, k))
    ensures Combines(32, a, b, false, c) <==> forall k :: 0 <= k < 32 ==> (Bit(c, k) <==> Bit(a, k) || Bit(b, k))
  {
  }

  lemma LogicLaw(f: seq<Insn>, env: Env, r: Regs, a: U32)
    requires r.pc < |f|
    ensures var b := Operand(f[r.pc], r);
      && (At(f, r, 0x54) || At(f, r, 0x5c) ==>
            (Yields(f, env, r, a) <==> forall k :: 0 <= k < 32 ==> (Bit(a, k) <==> Bit(r.A, k) && Bit(b, k))))
      && (At(f, r, 0x44) || At(f, r, 0x4c) ==>
            (Yields(f, env, r, a) <==> forall k :: 0 <= k < 32 ==> (Bit(a, k) <==> Bit(r.A, k) || Bit(b, k))))
  {
    hide Step, BitAnd, BitOr;
    var b := Operand(f[r.pc], r);
    AndOrAreBitwise(r.A, b, a);
    AllBits(r.A, b, a);
    if At(f, r, 0x54) || At(f, r, 0x5c) {
      AluStep(f, env, r, And, f[r.pc].code == 0x5c);
    }
    if At(f, r, 0x44) || At(f, r, 0x4c) {
      AluStep(f, env, r, Or, f[r.pc].code == 0x4c);
    }
  }

  /** Shifts by fewer than 32 places move every bit that stays in the word. */
  lemma ShiftLeftLaw(f: seq<Insn>, env: Env, r: Regs) returns (a: U32)
    requires (At(f, r, 0x64) || At(f, r, 0x6c)) && Operand(f[r.pc], r) < 32
    ensures Yields(f, env, r, a)
    ensures forall k :: 0 <= k < 32 ==>
      (Bit(a, k) <==> Operand(f[r.pc], r) <= k && Bit(r.A, k - Operand(f[r.pc], r)))
  {
    hide Step, Bit, ShiftLeft;
    var n := Operand(f[r.pc], r);
    AluStep(f, env, r, Lsh, f[r.pc].code == 0x6c);
    a := ShiftLeft(r.A, n);
    forall k | 0 <= k < 32
      ensures Bit(a, k) <==> n <= k && Bit(r.A, k - n)
    {
      ShiftedLeftBits(r.A, n, k);
    }
  }

  lemma ShiftRightLaw(f: seq<Insn>, env: Env, r: Regs) returns (a: U32)
    requires (At(f, r, 0x74) || At(f, r, 0x7c)) && Operand(f[r.pc], r) < 32
    ensures Yields(f, env, r, a)
    ensures forall k :: 0 <= k < 32 ==> (Bit(a, k) <==> Bit(r.A, Operand(f[r.pc], r) + k))
  {
    hide Step, Bit, ShiftRight;
    var n := Operand(f[r.pc], r);
    AluStep(f, env, r, Rsh, f[r.pc].code == 0x7c);
    a := ShiftRight(r.A, n);
    forall k | 0 <= k < 32
      ensures Bit(a, k) <==> Bit(r.A, n + k)
    {
      ShiftedBits(r.A, n, k);
    }
  }

  lemma ShiftedLeftBits(a: U32, n: nat, k: nat)
    requires n < 32 && k < 32
    ensures Bit(ShiftLeft(a, n), k) <==> n <= k && Bit(a, k - n)
  {
    hide Bit, Pow2;
    WordSize();
    LowBits(a * Pow2(n), 32, k);
    TimesPow2Bits(a, n, k);
  }

  lemma {:induction false} TimesPow2Bits(a: nat, n: nat, k: nat)
    ensures Bit(a * Pow2(n), k) <==> n <= k && Bit(a, k - n)
  {
    if n > 0 {
      var y := a * Pow2(n - 1);
      assert a * Pow2(n) == 2 * y;
      if k > 0 {
        assert 2 * y / 2 == y;
        TimesPow2Bits(a, n - 1, k - 1);
      }
    }
  }

  lemma HalfOfSum(x: nat, z: nat, r: nat)
    requires x == 2 * z + r
    ensures x % 2 == r % 2 && x / 2 == z + r / 2
  {
  }

  lemma Halved(x: nat, p: nat)
    requires p > 0
    ensures x % (2 * p) % 2 == x % 2 && x % (2 * p) / 2 == (x / 2) % p
  {
    var d := 2 * p;
    var q, r := x / d, x % d;
    var z := p * q;
    assert d * q == 2 * z;
    HalfOfSum(x, z, r);
    RemainderIs(x / 2, p, q, r / 2);
  }

  /** Taking a number modulo a power of two keeps its low bits. */
  lemma {:induction false} LowBits(x: nat, m: nat, k: nat)
    requires k < m
    ensures Bit(x % Pow2(m), k) <==> Bit(x, k)
  {
    var p := Pow2(m - 1);
    assert Pow2(m) == 2 * p;
    Halved(x, p);
    if k > 0 {
      LowBits(x / 2, m - 1, k - 1);
    }
  }

  // ---------------------------------------------------------------- loads

  /** The bounds tests pass exactly the loads that lie in the bytes present, for offsets that are not negative. */
  lemma BoundsTests(env: Env, a: Access)
    requires env.buflen < 0x8000_0000 && a.k < 0x8000_0000
    requires env.Split? ==> a.k + WidthBytes(a.w) < 0x8000_0000
    ensures Passes(env, a) <==> a.k + WidthBytes(a.w) <= env.buflen
  {
  }

  function LoadWidth(code: U16): nat {
    match code / 8 % 4
    case 0 => 4
    case 1 => 2
    case _ => 1
  }

  /**
   Offsets that are negative as an `int`. A byte passes wherever the test is signed. A word or half passes an
   unsigned test if offset and width wrap to a place in the bytes present, a signed one also if they stay negative.
   The NT driver's test of a packet in one piece lets none through.
   */
  lemma NegativeOffsets(env: Env, a: Access)
    requires env.buflen < 0x8000_0000 <= a.k
    ensures var over := a.k + WidthBytes(a.w) - TWO32;
      Passes(env, a) <==>
        match env.d
        case Vxd => a.w == Octet || 0 <= over <= env.buflen
        case Ntx =>
          env.Split? && (a.w == Octet || (over <= env.buflen && (over >= 0 || (a.ind <==> a.w == Half))))
  {
  }

  /** The load makes the offset `at`, in bounds or not, by its opcode. */
  function LoadOffset(i: Insn, r: Regs): int {
    if i.code / 32 == 2 then r.X + i.k else i.k
  }

  /** A is the number the bytes spell; a load beyond the bytes present ends the program. */
  lemma LoadLaw(f: seq<Insn>, env: Env, r: Regs)
    requires Sound(env) && r.pc < |f|
    requires f[r.pc].code in {0x20, 0x28, 0x30, 0x40, 0x48, 0x50} && LoadOffset(f[r.pc], r) < 0x8000_0000
    ensures var at, n := LoadOffset(f[r.pc], r), LoadWidth(f[r.pc].code);
      if at + n > env.buflen then Step(f, env, r) == OutOfBounds
      else BigEndian(env.p[at..at + n]) < TWO32 && Yields(f, env, r, BigEndian(env.p[at..at + n]))
  {
    hide BigEndian, Passes, Extract;
    var i, at := f[r.pc], LoadOffset(f[r.pc], r);
    match Decode(i.code) {
      case LdAbs(w) => LoadIs(env, Access(w, i.k, false));
      case LdInd(w) =>
        assert (r.X + i.k) % TWO32 == at;
        LoadIs(env, Access(w, (r.X + i.k) % TWO32, true));
    }
  }

  lemma LoadIs(env: Env, a: Access)
    requires Sound(env) && a.k < 0x8000_0000
    ensures var n := WidthBytes(a.w);
      if a.k + n > env.buflen then Load(env, a) == Stop(OutOfBounds)
      else BigEndian(env.p[a.k..a.k + n]) < TWO32 && Load(env, a) == Value(BigEndian(env.p[a.k..a.k + n]))
  {
    hide BigEndian, Passes, Extract;
    BoundsTests(env, a);
    if a.k + WidthBytes(a.w) <= env.buflen {
      LoadsAreBigEndian(env.p, a.k, a.w);
    }
  }

  /** LDX|MSH: four times the low half of the byte, the length of an IP header. */
  lemma HeaderLengthLaw(f: seq<Insn>, env: Env, r: Regs)
    requires Sound(env) && At(f, r, 0xb1) && f[r.pc].k < 0x8000_0000
    ensures var k := f[r.pc].k;
      if k >= env.buflen then Step(f, env, r) == OutOfBounds
      else Step(f, env, r) == Next(Regs(r.pc + 1, r.A, env.p[k] % 16 * 4, r.mem))
  {
    BoundsTests(env, Access(Octet, f[r.pc].k, false));
  }

  // ---------------------------------------------------------------- small programs

  /** LDH [12]; JEQ #type, 0, 1; RET #yes; RET #no. */
  function TypeFilter(kind: U32, yes: U32, no: U32): seq<Insn> {
    [Insn(0x28, 0, 0, 12), Insn(0x15, 0, 1, kind), Insn(0x06, 0, 0, yes), Insn(0x06, 0, 0, no)]
  }

  lemma RunsOn(f: seq<Insn>, env: Env, r: Regs, n: nat)
    requires n > 0
    ensures Run(f, env, r, n) ==
      var o := Step(f, env, r); if o.Next? then Run(f, env, o.r, n - 1) else o
  {
    hide Step;
  }

  lemma TypeFilterAccepted(kind: U32, yes: U32, no: U32)
    ensures Accepted(TypeFilter(kind, yes, no)) && NtxAccepted(TypeFilter(kind, yes, no))
  {
  }

  /** The usual filter by Ethernet type returns one value for packets of the type, the other for all others. */
  lemma TypeFilterSelects(env: Env, mem: seq<U32>, kind: U32, yes: U32, no: U32)
    requires Sound(env)
    ensures Run(TypeFilter(kind, yes, no), env, Start(mem), 4) ==
      if env.buflen < 14 then OutOfBounds
      else Return(if env.p[12] as int * 0x100 + env.p[13] as int == kind then yes else no)
  {
    hide Step, Run, BigEndian, Sound;
    var f, r0 := TypeFilter(kind, yes, no), Start(mem);
    RunsOn(f, env, r0, 4);
    TypeOf(f, env, r0);
    if env.buflen >= 14 {
      var r1 := Step(f, env, r0).r;
      RunsOn(f, env, r1, 3);
      JumpLaw(f, env, r1);
      var r2 := Step(f, env, r1).r;
      RunsOn(f, env, r2, 2);
      ReturnLaw(f, env, r2);
    }
  }

  lemma TypeOf(f: seq<Insn>, env: Env, r: Regs)
    requires Sound(env) && At(f, r, 0x28) && f[r.pc].k == 12
    ensures if env.buflen < 14 then Step(f, env, r) == OutOfBounds
      else 14 <= |env.p| && Yields(f, env, r, env.p[12] as int * 0x100 + env.p[13] as int)
  {
    hide Step, BigEndian;
    LoadLaw(f, env, r);
    if env.buflen >= 14 {
      FirstBytes(env.p[12..14]);
      assert env.p[12..14][..2] == env.p[12..14];
    }
  }

  /** Programs start with A and X zero and the scratch memory as it is. */
  lemma StartsFromZero(env: Env, mem: seq<U32>)
    ensures Run([Insn(0x16, 0, 0, 0)], env, Start(mem), 1) == Return(0)
    ensures Run([Insn(0x87, 0, 0, 0), Insn(0x16, 0, 0, 0)], env, Start(mem), 2) == Return(0)
  {
    hide Step, Run;
    var f, g := [Insn(0x16, 0, 0, 0)], [Insn(0x87, 0, 0, 0), Insn(0x16, 0, 0, 0)];
    RunsOn(f, env, Start(mem), 1);
    ReturnLaw(f, env, Start(mem));
    RunsOn(g, env, Start(mem), 2);
    TransferLaw(g, env, Start(mem));
    var r := Step(g, env, Start(mem)).r;
    RunsOn(g, env, r, 1);
    ReturnLaw(g, env, r);
  }

  lemma ScratchStartsAsItIs(env: Env, mem: seq<U32>, k: U32)
    requires |mem| == BPF_MEMWORDS && k < BPF_MEMWORDS
    ensures Run([Insn(0x60, 0, 0, k), Insn(0x16, 0, 0, 0)], env, Start(mem), 2) == Return(mem[k])
  {
    hide Step, Run;
    var f := [Insn(0x60, 0, 0, k), Insn(0x16, 0, 0, 0)];
    RunsOn(f, env, Start(mem), 2);
    ScratchLaw(f, env, Start(mem));
    var r := Step(f, env, Start(mem)).r;
    RunsOn(f, env, r, 1);
    ReturnLaw(f, env, r);
  }

  /** Opcodes the interpreter does not know end the program with 0; each of the checkers accepts some. */
  lemma UnknownOpcodeReturnsZero(f: seq<Insn>, env: Env, r: Regs)
    ensures At(f, r, 0x0f) || At(f, r, 0x21) || At(f, r, 0x29) || At(f, r, 0x31) ==> Step(f, env, r) == Return(0)
  {
  }

  lemma UnknownOpcodesAccepted(code: U16)
    requires code in {0x0f, 0x21, 0x29, 0x31}
    ensures Accepted([Insn(code, 0, 0, 0), Insn(0x06, 0, 0, 1)])
    ensures NtxAccepted([Insn(code, 0, 0, 0), Insn(0x06, 0, 0, 1)]) <==> code != 0x0f
  {
    hide Legal, Listed, DividesByZero;
    var f := [Insn(code, 0, 0, 0), Insn(0x06, 0, 0, 1)];
    NoOperation(f[0], 0);
    NoOperation(f[1], 1);
  }

  lemma NoOperation(i: Insn, at: nat)
    requires i.code in {0x06, 0x0f, 0x21, 0x29, 0x31}
    ensures Legal(i, at, 2) && !DividesByZero(i)
    ensures Listed(i.code) <==> i.code != 0x0f
  {
    match i.code {
      case 0x06 =>
      case 0x0f =>
      case 0x21 =>
      case 0x29 =>
      case _ =>
    }
  }
}
