/**
 The classic BPF instruction set: encodings and field masks, the operations they stand for, and one
 step of the machine over a packet in one buffer or in two. Everything that would leave the program,
 the scratch memory, the packet or C's arithmetic is an explicit fault.
*/
module BpfCode {
  import opened Machine

  datatype Insn = Insn(code: U16, jt: Byte, jf: Byte, k: U32)

  // ---------------------------------------------------------------- fields of an opcode

  const BPF_LD: U16 := 0x00
  const BPF_LDX: U16 := 0x01
  const BPF_ST: U16 := 0x02
  const BPF_STX: U16 := 0x03
  const BPF_ALU: U16 := 0x04
  const BPF_JMP: U16 := 0x05
  const BPF_RET: U16 := 0x06
  const BPF_MISC: U16 := 0x07

  const BPF_MEMWORDS: nat := 16

  /** code & 0x07 */
  function Class(code: U16): U16 { code % 8 }

  /** code & 0xe0, of a load */
  function ModeField(code: U16): U16 { code / 32 % 8 * 32 }

  /** code & 0xf0, of an arithmetic or jump instruction */
  function OpField(code: U16): U16 { code / 16 % 16 * 16 }

  /** code & 0x08 */
  function SrcField(code: U16): U16 { code / 8 % 2 * 8 }

  /** code & 0x18, of a return */
  function RvalField(code: U16): U16 { code / 8 % 4 * 8 }

  // ---------------------------------------------------------------- operations

  datatype Width = Word | Half | Octet
  datatype Arith = Add | Sub | Mul | Div | Or | And | Lsh | Rsh
  datatype Cond = Jeq | Jgt | Jge | Jset

  datatype Op =
    | RetK | RetA
    | LdAbs(w: Width) | LdInd(w: Width) | LdxMsh
    | LdLen | LdxLen | LdImm | LdxImm | LdMem | LdxMem
    | St | Stx
    | Ja | Jump(cond: Cond, x: bool)
    | Alu(arith: Arith, x: bool) | Neg
    | Tax | Txa
    | Unknown

  function WidthCode(w: Width): U16 {
    match w case Word => 0x00 case Half => 0x08 case Octet => 0x10
  }

  function ArithCode(a: Arith): U16 {
    match a
    case Add => 0x00 case Sub => 0x10 case Mul => 0x20 case Div => 0x30
    case Or => 0x40 case And => 0x50 case Lsh => 0x60 case Rsh => 0x70
  }

  function CondCode(c: Cond): U16 {
    match c case Jeq => 0x10 case Jgt => 0x20 case Jge => 0x30 case Jset => 0x40
  }

  function SrcCode(x: bool): U16 { if x then 0x08 else 0x00 }

  /** The opcode of an operation, put together from its fields. */
  function Encode(op: Op): U16
    requires op != Unknown
  {
    match op
    case RetK => BPF_RET
    case RetA => BPF_RET + 0x10
    case LdAbs(w) => BPF_LD + WidthCode(w) + 0x20
    case LdInd(w) => BPF_LD + WidthCode(w) + 0x40
    case LdxMsh => BPF_LDX + WidthCode(Octet) + 0xa0
    case LdLen => BPF_LD + 0x80
    case LdxLen => BPF_LDX + 0x80
    case LdImm => BPF_LD
    case LdxImm => BPF_LDX
    case LdMem => BPF_LD + 0x60
    case LdxMem => BPF_LDX + 0x60
    case St => BPF_ST
    case Stx => BPF_STX
    case Ja => BPF_JMP
    case Jump(c, x) => BPF_JMP + CondCode(c) + SrcCode(x)
    case Alu(a, x) => BPF_ALU + ArithCode(a) + SrcCode(x)
    case Neg => BPF_ALU + 0x80
    case Tax => BPF_MISC
    case Txa => BPF_MISC + 0x80
  }

  /** The operation the interpreter performs for an opcode: its switch, arm by arm. */
  function Decode(code: U16): Op {
    match code
    case 0x06 => RetK
    case 0x16 => RetA
    case 0x20 => LdAbs(Word)
    case 0x28 => LdAbs(Half)
    case 0x30 => LdAbs(Octet)
    case 0x80 => LdLen
    case 0x81 => LdxLen
    case 0x40 => LdInd(Word)
    case 0x48 => LdInd(Half)
    case 0x50 => LdInd(Octet)
    case 0xb1 => LdxMsh
    case 0x00 => LdImm
    case 0x01 => LdxImm
    case 0x60 => LdMem
    case 0x61 => LdxMem
    case 0x02 => St
    case 0x03 => Stx
    case 0x05 => Ja
    case 0x25 => Jump(Jgt, false)
    case 0x35 => Jump(Jge, false)
    case 0x15 => Jump(Jeq, false)
    case 0x45 => Jump(Jset, false)
    case 0x2d => Jump(Jgt, true)
    case 0x3d => Jump(Jge, true)
    case 0x1d => Jump(Jeq, true)
    case 0x4d => Jump(Jset, true)
    case 0x0c => Alu(Add, true)
    case 0x1c => Alu(Sub, true)
    case 0x2c => Alu(Mul, true)
    case 0x3c => Alu(Div, true)
    case 0x5c => Alu(And, true)
    case 0x4c => Alu(Or, true)
    case 0x6c => Alu(Lsh, true)
    case 0x7c => Alu(Rsh, true)
    case 0x04 => Alu(Add, false)
    case 0x14 => Alu(Sub, false)
    case 0x24 => Alu(Mul, false)
    case 0x34 => Alu(Div, false)
    case 0x54 => Alu(And, false)
    case 0x44 => Alu(Or, false)
    case 0x64 => Alu(Lsh, false)
    case 0x74 => Alu(Rsh, false)
    case 0x84 => Neg
    case 0x07 => Tax
    case 0x87 => Txa
    case _ => Unknown
  }

  /** The interpreter's switch knows each operation under its encoding. */
  lemma DecodeInvertsEncode(op: Op)
    requires op != Unknown
    ensures Decode(Encode(op)) == op
  {
    hide Decode, Encode;
    match op
    case LdAbs(w) => DecodesLoad(w);
    case LdInd(w) => DecodesLoad(w);
    case Jump(c, x) => DecodesJump(c, x);
    case Alu(a, x) => DecodesAlu(a, x);
    case _ => DecodesSingle(op);
  }

  lemma DecodesLoad(w: Width)
    ensures Decode(Encode(LdAbs(w))) == LdAbs(w) && Decode(Encode(LdInd(w))) == LdInd(w)
  {
  }

  lemma DecodesJump(c: Cond, x: bool)
    ensures Decode(Encode(Jump(c, x))) == Jump(c, x)
  {
  }

  lemma DecodesAlu(a: Arith, x: bool)
    ensures Decode(Encode(Alu(a, x))) == Alu(a, x)
  {
  }

  lemma DecodesSingle(op: Op)
    requires op != Unknown && !op.LdAbs? && !op.LdInd? && !op.Jump? && !op.Alu?
    ensures Decode(Encode(op)) == op
  {
  }

  /** It knows no other opcode, so no opcode has two readings. */
  lemma EncodeInvertsDecode(code: U16)
    requires Decode(code) != Unknown
    ensures Encode(Decode(code)) == code
  {
  }

  // ---------------------------------------------------------------- machine state

  datatype Regs = Regs(pc: nat, A: U32, X: U32, mem: seq<U32>)

  /** The driver for Windows 9x and the one for Windows NT each have their own copy of the machine. */
  datatype Dialect = Vxd | Ntx

  /** The packet in one piece, or its header and its data apart; `buflen` bytes are present. */
  datatype Env =
    | Flat(d: Dialect, p: seq<Byte>, wirelen: U32, buflen: U32)
    | Split(d: Dialect, hb: seq<Byte>, pd: seq<Byte>, wirelen: U32, buflen: U32)

  /** A load of `w` bytes at offset `k`, which is indirect if X was added to it. */
  datatype Access = Access(w: Width, k: U32, ind: bool)

  datatype FaultKind = BadPc | BadScratch | BadRead | DivByZero | WideShift

  datatype Outcome =
    | Next(r: Regs)
    | Return(v: U32)
    | OutOfBounds              // the bounds test of a load failed: the filter returns 0
    | Fault(kind: FaultKind)

  function Signed(x: U32): int {
    if x < 0x8000_0000 then x else x - TWO32
  }

  function WidthBytes(w: Width): nat {
    match w case Word => 4 case Half => 2 case Octet => 1
  }

  /** What C's `int` makes of an offset plus a few bytes. */
  function Plus(k: int, n: nat): int {
    Signed((k + n) % TWO32)
  }

  /**
   The bounds tests. The 9x driver tests words and halves in unsigned arithmetic that wraps, bytes in
   signed. The NT driver's test of a packet in one piece compares the offset itself as well; over two
   buffers it is signed or unsigned, as it happens, from load to load.
   */
  predicate Passes(env: Env, a: Access) {
    match env.d
    case Vxd =>
      if a.w == Octet then Signed(a.k) < Signed(env.buflen)
      else (a.k + WidthBytes(a.w)) % TWO32 <= env.buflen
    case Ntx =>
      if env.Flat? then a.k < env.buflen && (a.w == Octet || (a.k + WidthBytes(a.w)) % TWO32 <= env.buflen)
      else match a.w
        case Word => if a.ind then (a.k + 4) % TWO32 <= env.buflen else Plus(a.k, 4) <= Signed(env.buflen)
        case Half => if a.ind then Plus(a.k, 2) <= Signed(env.buflen) else (a.k + 2) % TWO32 <= env.buflen
        case Octet => Signed(a.k) < Signed(env.buflen)
  }

  predicate Within(b: seq<Byte>, at: int, n: nat) {
    0 <= at && at + n <= |b|
  }

  /** `n` bytes, most significant first. */
  function Extract(b: seq<Byte>, at: int, w: Width): U32
    requires Within(b, at, WidthBytes(w))
  {
    match w
    case Word => b[at] as int * 0x100_0000 + b[at + 1] as int * 0x1_0000 + b[at + 2] as int * 0x100 + b[at + 3] as int
    case Half => b[at] as int * 0x100 + b[at + 1] as int
    case Octet => b[at] as int
  }

  /** The value of an expression, or the way the program ends there. */
  datatype Got = Value(v: U32) | Stop(o: Outcome)

  const OUTSIDE: Got := Stop(Fault(BadRead))

  /** A load that passed its bounds test, from one buffer. */
  function FlatLoad(p: seq<Byte>, w: Width, k: int): (g: Got)
    ensures g.Value? || g == OUTSIDE
  {
    if Within(p, k, WidthBytes(w)) then Value(Extract(p, k, w)) else OUTSIDE
  }

  /** The bytes the first, later overwritten, assignment of a split word or half load reads. */
  predicate ProbesInRange(hb: seq<Byte>, pd: seq<Byte>, w: Width, k: int) {
    var h := |hb|;
    match w
    case Word =>
      if k + 4 < h then Within(hb, k, 4)
      else if k + 2 == h then Within(hb, k, 3) && Within(pd, k - h, 1)
      else if k == h - 1 then Within(hb, k, 2) && Within(pd, k - h, 2)
      else if k == h then Within(hb, k, 1) && Within(pd, k - h + 1, 3)
      else true
    case Half =>
      if k + 2 < h then Within(hb, k, 2)
      else if k == h then Within(hb, k, 1) && Within(pd, k - h, 1)
      else true
    case Octet => true
  }

  /**
   A load that passed its bounds test, from two buffers, in the 9x driver. Whatever the first
   assignment took from the header, words and halves end up with the value taken from the data buffer.
   */
  function SplitLoad(hb: seq<Byte>, pd: seq<Byte>, w: Width, k: int): (g: Got)
    ensures g.Value? || g == OUTSIDE
  {
    var h := |hb|;
    if w == Octet then
      if k < h then FlatLoad(hb, Octet, k) else FlatLoad(pd, Octet, k - h)
    else if !ProbesInRange(hb, pd, w, k) then OUTSIDE
    else FlatLoad(pd, w, k - h)
  }

  /**
   The same in the NT driver. Of the loads across the end of the header only the word whose first byte
   is the last one of the header gets its other bytes right; those with two or three bytes in the
   header, and the half, index the data buffer with k - headersize, which is negative there.
   */
  function StraddlingLoad(hb: seq<Byte>, pd: seq<Byte>, w: Width, k: int): (g: Got)
    ensures g.Value? || g == OUTSIDE
  {
    var h := |hb|;
    if Plus(k, WidthBytes(w)) <= h then FlatLoad(hb, w, k)
    else if w == Word && (k + 3 == h || k + 2 == h) then OUTSIDE
    else if w == Half && k + 1 == h then OUTSIDE
    else if w == Word && k + 1 == h then
      if Within(hb, k, 1) && Within(pd, k - h + 1, 3) then
        Value(Extract([hb[k], pd[k - h + 1], pd[k - h + 2], pd[k - h + 3]], 0, Word))
      else OUTSIDE
    else FlatLoad(pd, w, k - h)
  }

  function Load(env: Env, a: Access): (g: Got)
    ensures g.Value? || g == OUTSIDE || g == Stop(OutOfBounds)
  {
    if !Passes(env, a) then Stop(OutOfBounds)
    else match env
      case Flat(_, p, _, _) => FlatLoad(p, a.w, if env.d == Ntx then a.k else Signed(a.k))
      case Split(Vxd, hb, pd, _, _) => SplitLoad(hb, pd, a.w, Signed(a.k))
      case Split(Ntx, hb, pd, _, _) => StraddlingLoad(hb, pd, a.w, Signed(a.k))
  }

  // ---------------------------------------------------------------- arithmetic

  function Pow2(n: nat): (p: nat)
    ensures p > 0
  {
    if n == 0 then 1 else 2 * Pow2(n - 1)
  }

  lemma WordSize()
    ensures Pow2(32) == TWO32
  {
    assert Pow2(8) == 0x100;
    assert Pow2(16) == 0x1_0000;
    assert Pow2(24) == 0x100_0000;
  }

  /** The `n` low bits of a & b, or of a | b. */
  function Bitwise(n: nat, a: nat, b: nat, both: bool): (c: nat)
    ensures c < Pow2(n)
  {
    if n == 0 then 0
    else
      var bit := if both then a % 2 == 1 && b % 2 == 1 else a % 2 == 1 || b % 2 == 1;
      2 * Bitwise(n - 1, a / 2, b / 2, both) + if bit then 1 else 0
  }

  function BitAnd(a: U32, b: U32): U32 {
    WordSize();
    Bitwise(32, a, b, true)
  }

  function BitOr(a: U32, b: U32): U32 {
    WordSize();
    Bitwise(32, a, b, false)
  }

  function ShiftLeft(a: U32, n: U32): U32
    requires n < 32
  {
    a * Pow2(n) % TWO32
  }

  function ShiftRight(a: U32, n: nat): U32 {
    if n == 0 then a else ShiftRight(a / 2, n - 1)
  }

  lemma Multiple(b: nat, q: nat)
    requires b > 0
    ensures q <= b * q
  {
    assert b * q == (b - 1) * q + q;
  }

  lemma QuotientFits(a: nat, b: nat)
    requires b > 0
    ensures 0 <= a / b <= a
  {
    assert a == b * (a / b) + a % b;
    Multiple(b, a / b);
  }

  function Quotient(a: U32, b: U32): U32
    requires b > 0
  {
    QuotientFits(a, b);
    a / b
  }

  /** A op b; a division by a zero X ends the program, one by a zero constant is C's division by zero. */
  function Calc(a: Arith, x: bool, A: U32, b: U32): (g: Got)
    ensures g.Value? || g == Stop(Return(0)) || g == Stop(Fault(DivByZero)) || g == Stop(Fault(WideShift))
  {
    match a
    case Add => Value((A + b) % TWO32)
    case Sub => Value((A - b) % TWO32)
    case Mul => Value((A * b) % TWO32)
    case Div => if b != 0 then Value(Quotient(A, b)) else Stop(if x then Return(0) else Fault(DivByZero))
    case Or => Value(BitOr(A, b))
    case And => Value(BitAnd(A, b))
    case Lsh => if b < 32 then Value(ShiftLeft(A, b)) else Stop(Fault(WideShift))
    case Rsh => if b < 32 then Value(ShiftRight(A, b)) else Stop(Fault(WideShift))
  }

  /** Comparisons with a constant are signed, with X unsigned. */
  predicate Satisfies(c: Cond, x: bool, A: U32, b: U32) {
    match c
    case Jeq => A == b
    case Jgt => if x then A > b else Signed(A) > Signed(b)
    case Jge => if x then A >= b else Signed(A) >= Signed(b)
    case Jset => BitAnd(A, b) != 0
  }

  // ---------------------------------------------------------------- one instruction

  function ToA(g: Got, s: Regs): Outcome {
    match g
    case Value(v) => Next(s.(A := v))
    case Stop(o) => o
  }

  /** LDX|MSH: four times the low nibble of the byte. */
  function NibbleToX(g: Got, s: Regs): Outcome {
    match g
    case Value(v) => Next(s.(X := v % 16 * 4))
    case Stop(o) => o
  }

  function Exec(i: Insn, env: Env, r: Regs): Outcome {
    var s := r.(pc := r.pc + 1);
    match Decode(i.code)
    case Unknown => Return(0)
    case RetK => Return(i.k)
    case RetA => Return(r.A)
    case LdAbs(w) => ToA(Load(env, Access(w, i.k, false)), s)
    case LdInd(w) => ToA(Load(env, Access(w, (r.X + i.k) % TWO32, true)), s)
    case LdxMsh => NibbleToX(Load(env, Access(Octet, i.k, false)), s)
    case LdLen => Next(s.(A := env.wirelen))
    case LdxLen => Next(s.(X := env.wirelen))
    case LdImm => Next(s.(A := i.k))
    case LdxImm => Next(s.(X := i.k))
    case LdMem => if i.k < |r.mem| then Next(s.(A := r.mem[i.k])) else Fault(BadScratch)
    case LdxMem => if i.k < |r.mem| then Next(s.(X := r.mem[i.k])) else Fault(BadScratch)
    case St => if i.k < |r.mem| then Next(s.(mem := r.mem[i.k := r.A])) else Fault(BadScratch)
    case Stx => if i.k < |r.mem| then Next(s.(mem := r.mem[i.k := r.X])) else Fault(BadScratch)
    case Ja => Next(s.(pc := s.pc + i.k))
    case Jump(c, x) => Next(s.(pc := s.pc + if Satisfies(c, x, r.A, if x then r.X else i.k) then i.jt else i.jf))
    case Alu(a, x) => ToA(Calc(a, x, r.A, if x then r.X else i.k), s)
    case Neg => Next(s.(A := (TWO32 - r.A) % TWO32))
    case Tax => Next(s.(X := r.A))
    case Txa => Next(s.(A := r.X))
  }

  function Step(prog: seq<Insn>, env: Env, r: Regs): Outcome {
    if r.pc < |prog| then Exec(prog[r.pc], env, r) else Fault(BadPc)
  }

  /** At most `n` instructions; `Next` if the program has not ended by then. */
  function Run(prog: seq<Insn>, env: Env, r: Regs, n: nat): Outcome
    decreases n
  {
    if n == 0 then Next(r)
    else
      var o := Step(prog, env, r);
      if o.Next? then Run(prog, env, o.r, n - 1) else o
  }

  /** What the filter returns to the tap. */
  function Verdict(o: Outcome): U32
    requires o.Return? || o.OutOfBounds?
  {
    if o.Return? then o.v else 0
  }

  function Start(mem: seq<U32>): Regs {
    Regs(0, 0, 0, mem)
  }
}
