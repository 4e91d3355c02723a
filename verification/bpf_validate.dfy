/** The static checker that decides which filter programs the driver accepts. */
module BpfValidate {
  import opened Machine
  import opened BpfCode

  // ---------------------------------------------------------------- what the checker accepts

  /** A jump of `d` instructions from instruction `at` stays inside a program of `len` instructions. */
  predicate Lands(at: nat, d: nat, len: nat) {
    at + 1 + d < len
  }

  predicate Legal(i: Insn, at: nat, len: nat) {
    var c := Class(i.code);
    if c == BPF_LD || c == BPF_LDX then
      ModeField(i.code) in {0x00, 0x20, 0x40, 0x80, 0xa0} || (ModeField(i.code) == 0x60 && i.k < BPF_MEMWORDS)
    else if c == BPF_ST || c == BPF_STX then
      i.k < BPF_MEMWORDS
    else if c == BPF_ALU then
      OpField(i.code) <= 0x80
    else if c == BPF_JMP then
      if OpField(i.code) == 0x00 then Lands(at, i.k, len)
      else OpField(i.code) <= 0x40 && Lands(at, i.jt, len) && Lands(at, i.jf, len)
    else true
  }

  predicate Accepted(f: seq<Insn>) {
    && 1 <= |f|
    && (forall at :: 0 <= at < |f| ==> Legal(f[at], at, |f|))
    && Class(f[|f| - 1].code) == BPF_RET
  }

  /** Programs are counted in C's signed `int`. */
  predicate Countable(f: seq<Insn>) {
    |f| < 0x8000_0000
  }

  /**
   The checker, with its 32-bit jump arithmetic. It decides `Accepted` although the test of a zero
   constant divisor is in the body: the mask of that test overlaps the opcode of the division.
   */
  method Validate(f: seq<Insn>) returns (ok: bool)
    requires Countable(f)
    ensures ok <==> Accepted(f)
  {
    if |f| < 1 {
      return false;
    }
    var at := 0;
    while at < |f|
      invariant 0 <= at <= |f|
      invariant forall b :: 0 <= b < at ==> Legal(f[b], b, |f|)
    {
      var fine := CheckInsn(f[at], at, |f|);
      if !fine {
        return false;
      }
      at := at + 1;
    }
    return Class(f[|f| - 1].code) == BPF_RET;
  }

  /** The switch in the body of the checker's loop. */
  method CheckInsn(i: Insn, at: nat, len: nat) returns (ok: bool)
    requires at < len < 0x8000_0000
    ensures ok <==> Legal(i, at, len)
  {
    match Class(i.code)
    case 0x00 | 0x01 =>
      match ModeField(i.code) {
        case 0x00 => return true;
        case 0x20 | 0x40 | 0xa0 => return true;
        case 0x60 => return i.k < BPF_MEMWORDS;
        case 0x80 => return true;
        case _ => return false;
      }
    case 0x02 | 0x03 =>
      return i.k < BPF_MEMWORDS;
    case 0x04 =>
      match OpField(i.code) {
        case 0x00 | 0x10 | 0x20 | 0x40 | 0x50 | 0x60 | 0x70 | 0x80 => return true;
        case 0x30 =>
          DivisionsLookAlike(i.code);
          if RvalField(i.code) == 0x00 && i.k == 0 {
            return false;
          }
          return true;
        case _ => return false;
      }
    case 0x05 =>
      var from := at + 1;
      match OpField(i.code) {
        case 0x00 =>
          var to := (from + i.k) % TWO32;
          return !(to < from || to >= len);
        case 0x10 | 0x20 | 0x30 | 0x40 =>
          return !(from + i.jt >= len || from + i.jf >= len);
        case _ => return false;
      }
    case 0x06 => return true;
    case _ => return true;
  }

  /** Bit 0x10, which distinguishes RET|K from RET|A, is set in every division. */
  lemma DivisionsLookAlike(code: U16)
    requires Class(code) == BPF_ALU && OpField(code) == 0x30
    ensures RvalField(code) != 0x00
  {
    var e, q := code / 8, code / 16;
    assert e == 2 * q + e % 2;
    assert q == 16 * (q / 16) + 3;
    assert e % 4 == 2 + e % 2;
  }

  // ---------------------------------------------------------------- the checker of the NT driver

  predicate DividesByZero(i: Insn) {
    Decode(i.code) == Alu(Div, false) && i.k == 0
  }

  const VALID_RETURNS_AND_LOADS: seq<U16> := [
    0x06, 0x16, 0x00, 0x01, 0x60, 0x61, 0x20, 0x28, 0x30, 0x21, 0x29, 0x31, 0x80, 0x81, 0x40, 0x48, 0x50, 0xb1]

  const VALID_STORES_AND_JUMPS: seq<U16> := [0x02, 0x03, 0x05, 0x25, 0x35, 0x15, 0x45, 0x2d, 0x3d, 0x1d, 0x4d]

  const VALID_WITH_X: seq<U16> := [0x0c, 0x1c, 0x2c, 0x3c, 0x5c, 0x4c, 0x6c, 0x7c]

  const VALID_WITH_CONSTANT: seq<U16> := [0x04, 0x14, 0x24, 0x34, 0x54, 0x44, 0x64, 0x74, 0x84, 0x07, 0x87]

  /** The list of valid opcodes, for the build without the TME extensions. */
  const VALID_INSTRUCTIONS: seq<U16> :=
    VALID_RETURNS_AND_LOADS + VALID_STORES_AND_JUMPS + VALID_WITH_X + VALID_WITH_CONSTANT

  /** LDX|ABS is on the list although the interpreter does not know it. */
  predicate Listed(code: U16) {
    Decode(code) != Unknown || code in {0x21, 0x29, 0x31}
  }

  lemma ListIs(code: U16)
    ensures code in VALID_INSTRUCTIONS <==> Listed(code)
  {
    hide Listed, Decode;
    ReturnsAndLoadsListed(code);
    StoresAndJumpsListed(code);
    WithXListed(code);
    WithConstantListed(code);
    if Listed(code) {
      ListedIsOnList(code);
    }
  }

  lemma ReturnsAndLoadsListed(code: U16)
    ensures code in VALID_RETURNS_AND_LOADS ==> Listed(code)
  {
  }

  lemma StoresAndJumpsListed(code: U16)
    ensures code in VALID_STORES_AND_JUMPS ==> Listed(code)
  {
  }

  lemma WithXListed(code: U16)
    ensures code in VALID_WITH_X ==> Listed(code)
  {
  }

  lemma WithConstantListed(code: U16)
    ensures code in VALID_WITH_CONSTANT ==> Listed(code)
  {
  }

  lemma ListedIsOnList(code: U16)
    requires Listed(code)
    ensures code in VALID_RETURNS_AND_LOADS || code in VALID_STORES_AND_JUMPS
         || code in VALID_WITH_X || code in VALID_WITH_CONSTANT
  {
    if Decode(code) != Unknown {
      EncodeInvertsDecode(code);
    }
  }

  /** What the 9x driver accepts, less the divisions by zero and the opcodes not on the list. */
  predicate NtxAccepted(f: seq<Insn>) {
    Accepted(f) && forall at :: 0 <= at < |f| ==> Listed(f[at].code) && !DividesByZero(f[at])
  }

  /** The loop over the list. */
  method OnList(code: U16, list: seq<U16>) returns (flag: bool)
    ensures flag <==> code in list
  {
    flag := false;
    for j := 0 to |list|
      invariant flag <==> code in list[..j]
    {
      if code == list[j] {
        flag := true;
      }
    }
    assert list[..|list|] == list;
  }

  predicate NtxLegal(i: Insn, at: nat, len: nat) {
    Legal(i, at, len) && Listed(i.code) && !DividesByZero(i)
  }

  method NtxCheckInsn(i: Insn, at: nat, len: nat) returns (ok: bool)
    requires at < len < 0x8000_0000
    ensures ok <==> NtxLegal(i, at, len)
  {
    hide Legal, Listed, DividesByZero;
    var listed := OnList(i.code, VALID_INSTRUCTIONS);
    ListIs(i.code);
    if !listed {
      return false;
    }
    DivisionFields(i);
    if Class(i.code) == BPF_ALU && OpField(i.code) == 0x30 && SrcField(i.code) == 0x00 && i.k == 0 {
      return false;
    }
    ok := CheckInsn(i, at, len);
  }

  method NtxValidate(f: seq<Insn>) returns (ok: bool)
    requires Countable(f)
    ensures ok <==> NtxAccepted(f)
  {
    if |f| < 1 {
      return false;
    }
    hide NtxLegal, NtxAccepted;
    var at := 0;
    while at < |f|
      invariant 0 <= at <= |f|
      invariant forall b :: 0 <= b < at ==> NtxLegal(f[b], b, |f|)
    {
      var fine := NtxCheckInsn(f[at], at, |f|);
      if !fine {
        NotAccepted(f, at);
        return false;
      }
      at := at + 1;
    }
    AllLegal(f);
    return Class(f[|f| - 1].code) == BPF_RET;
  }

  lemma NotAccepted(f: seq<Insn>, at: nat)
    requires at < |f| && !NtxLegal(f[at], at, |f|)
    ensures !NtxAccepted(f)
  {
    hide Legal, Listed, DividesByZero;
  }

  lemma AllLegal(f: seq<Insn>)
    requires f != [] && forall b :: 0 <= b < |f| ==> NtxLegal(f[b], b, |f|)
    ensures NtxAccepted(f) <==> Class(f[|f| - 1].code) == BPF_RET
  {
    hide Legal, Listed, DividesByZero;
    forall b | 0 <= b < |f|
      ensures Legal(f[b], b, |f|) && Listed(f[b].code) && !DividesByZero(f[b])
    {
      assert NtxLegal(f[b], b, |f|);
    }
  }

  /** With the mask of the operand's source, the test finds exactly the divisions by a constant zero. */
  lemma DivisionFields(i: Insn)
    requires Listed(i.code)
    ensures DividesByZero(i) <==>
      Class(i.code) == BPF_ALU && OpField(i.code) == 0x30 && SrcField(i.code) == 0x00 && i.k == 0
  {
    if Decode(i.code) != Unknown {
      EncodeInvertsDecode(i.code);
    }
  }

  // ---------------------------------------------------------------- what acceptance means

  /** The instructions one step may go to. */
  function Targets(i: Insn, at: nat): set<nat> {
    match Decode(i.code)
    case Unknown | RetK | RetA => {}
    case Ja => {at + 1 + i.k}
    case Jump(_, _) => {at + 1 + i.jt, at + 1 + i.jf}
    case _ => {at + 1}
  }

  predicate UsesScratch(op: Op) {
    op == LdMem || op == LdxMem || op == St || op == Stx
  }

  /** The interpreter knows every instruction of the program. */
  predicate Understood(f: seq<Insn>) {
    forall at :: 0 <= at < |f| ==> Decode(f[at].code) != Unknown
  }

  /** Jumps stay in the program, scratch indices in the scratch memory, the last instruction returns. */
  predicate Safe(f: seq<Insn>) {
    && 1 <= |f|
    && (forall at, t :: 0 <= at < |f| && t in Targets(f[at], at) ==> t < |f|)
    && (forall at :: 0 <= at < |f| && UsesScratch(Decode(f[at].code)) ==> f[at].k < BPF_MEMWORDS)
    && Decode(f[|f| - 1].code) in {RetK, RetA}
  }

  lemma JumpFields(op: Op)
    requires op == Ja || op.Jump?
    ensures Class(Encode(op)) == BPF_JMP
    ensures if op == Ja then OpField(Encode(op)) == 0x00 else 0x00 < OpField(Encode(op)) <= 0x40
  {
  }

  predicate IsLoad(op: Op) {
    op.LdAbs? || op.LdInd? || op in {LdxMsh, LdLen, LdxLen, LdImm, LdxImm, LdMem, LdxMem}
  }

  lemma LoadFields(i: Insn, op: Op, at: nat, len: nat)
    requires IsLoad(op) && i.code == Encode(op)
    ensures Class(i.code) == BPF_LD || Class(i.code) == BPF_LDX
    ensures Legal(i, at, len) <==> (UsesScratch(op) ==> i.k < BPF_MEMWORDS)
  {
    hide Legal, Encode, Class;
    match op
    case LdAbs(w) => PacketFields(i, w, at, len);
    case LdInd(w) => PacketFields(i, w, at, len);
    case _ => OtherLoadFields(i, op, at, len);
  }

  lemma PacketFields(i: Insn, w: Width, at: nat, len: nat)
    requires i.code == Encode(LdAbs(w)) || i.code == Encode(LdInd(w))
    ensures Class(i.code) == BPF_LD && Legal(i, at, len)
  {
  }

  lemma OtherLoadFields(i: Insn, op: Op, at: nat, len: nat)
    requires IsLoad(op) && !op.LdAbs? && !op.LdInd? && i.code == Encode(op)
    ensures Class(i.code) == BPF_LD || Class(i.code) == BPF_LDX
    ensures Legal(i, at, len) <==> (UsesScratch(op) ==> i.k < BPF_MEMWORDS)
  {
  }

  lemma OtherFields(i: Insn, op: Op, at: nat, len: nat)
    requires op != Unknown && op != Ja && !op.Jump? && i.code == Encode(op)
    ensures Class(i.code) == BPF_RET <==> op == RetK || op == RetA
    ensures Class(i.code) != BPF_JMP
    ensures Legal(i, at, len) <==> (UsesScratch(op) ==> i.k < BPF_MEMWORDS)
  {
    hide Legal, Encode, Class;
    if IsLoad(op) {
      LoadFields(i, op, at, len);
    } else if op.Alu? {
      AluFields(i, op.arith, op.x, at, len);
    } else {
      PlainFields(i, op, at, len);
    }
  }

  lemma AluFields(i: Insn, a: Arith, x: bool, at: nat, len: nat)
    requires i.code == Encode(Alu(a, x))
    ensures Class(i.code) == BPF_ALU && Legal(i, at, len)
  {
  }

  lemma PlainFields(i: Insn, op: Op, at: nat, len: nat)
    requires op != Unknown && op != Ja && !op.Jump? && !op.Alu? && !IsLoad(op) && i.code == Encode(op)
    ensures Class(i.code) == BPF_RET <==> op == RetK || op == RetA
    ensures Class(i.code) != BPF_JMP
    ensures Legal(i, at, len) <==> (UsesScratch(op) ==> i.k < BPF_MEMWORDS)
  {
  }

  lemma LegalOps(i: Insn, at: nat, len: nat)
    requires at < len && Decode(i.code) != Unknown
    requires at + 1 < len || Class(i.code) == BPF_RET
    ensures Legal(i, at, len) <==>
      (forall t :: t in Targets(i, at) ==> t < len) && (UsesScratch(Decode(i.code)) ==> i.k < BPF_MEMWORDS)
  {
    hide Decode, Encode;
    EncodeInvertsDecode(i.code);
    var op := Decode(i.code);
    if op == Ja {
      JumpFields(op);
      assert at + 1 + i.k in Targets(i, at);
    } else if op.Jump? {
      JumpFields(op);
      assert at + 1 + i.jt in Targets(i, at) && at + 1 + i.jf in Targets(i, at);
    } else {
      OtherFields(i, op, at, len);
      assert Targets(i, at) <= {at + 1};
    }
  }

  /** What a safe program asks of one instruction. */
  predicate SafeAt(f: seq<Insn>, at: nat)
    requires at < |f|
  {
    && (forall t :: t in Targets(f[at], at) ==> t < |f|)
    && (UsesScratch(Decode(f[at].code)) ==> f[at].k < BPF_MEMWORDS)
  }

  lemma SafeIsEverywhere(f: seq<Insn>)
    ensures Safe(f) <==>
      1 <= |f| && (forall at :: 0 <= at < |f| ==> SafeAt(f, at)) && Decode(f[|f| - 1].code) in {RetK, RetA}
  {
    hide Decode, Targets, UsesScratch;
    if forall at :: 0 <= at < |f| ==> SafeAt(f, at) {
      forall at, t | 0 <= at < |f| && t in Targets(f[at], at)
        ensures t < |f|
      {
        assert SafeAt(f, at);
      }
      forall at | 0 <= at < |f| && UsesScratch(Decode(f[at].code))
        ensures f[at].k < BPF_MEMWORDS
      {
        assert SafeAt(f, at);
      }
    }
  }

  lemma LastReturns(i: Insn)
    requires Decode(i.code) != Unknown
    ensures Class(i.code) == BPF_RET <==> Decode(i.code) in {RetK, RetA}
  {
    EncodeInvertsDecode(i.code);
  }

  lemma SafeWhereLegal(f: seq<Insn>, at: nat)
    requires Understood(f) && at < |f| && Class(f[|f| - 1].code) == BPF_RET
    ensures Legal(f[at], at, |f|) <==> SafeAt(f, at)
  {
    hide Decode, Legal, Targets, UsesScratch, Class;
    LegalOps(f[at], at, |f|);
  }

  /** Of programs the interpreter understands, the checker accepts exactly the safe ones. */
  lemma AcceptsExactlySafe(f: seq<Insn>)
    requires Understood(f)
    ensures Accepted(f) <==> Safe(f)
  {
    hide Decode, Legal, SafeAt, Safe, Class, Understood;
    SafeIsEverywhere(f);
    if f != [] {
      assert Decode(f[|f| - 1].code) != Unknown by {
        UnderstandsLast(f);
      }
      LastReturns(f[|f| - 1]);
      if Class(f[|f| - 1].code) == BPF_RET {
        forall at | 0 <= at < |f|
          ensures Legal(f[at], at, |f|) <==> SafeAt(f, at)
        {
          SafeWhereLegal(f, at);
        }
      }
    }
  }

  /** The NT driver's checker accepts of these exactly the safe ones that divide by no constant zero. */
  lemma NtxAcceptsExactlySafe(f: seq<Insn>)
    requires Understood(f)
    ensures NtxAccepted(f) <==> Safe(f) && forall at :: 0 <= at < |f| ==> f[at].code != 0x34 || f[at].k != 0
  {
    hide Decode, Safe, Accepted;
    AcceptsExactlySafe(f);
    forall at | 0 <= at < |f|
      ensures Listed(f[at].code) && (DividesByZero(f[at]) <==> f[at].code == 0x34 && f[at].k == 0)
    {
      DivisionCode(f[at].code);
    }
  }

  lemma DivisionCode(code: U16)
    ensures Decode(code) == Alu(Div, false) <==> code == 0x34
  {
  }

  lemma UnderstandsLast(f: seq<Insn>)
    requires Understood(f) && f != []
    ensures Decode(f[|f| - 1].code) != Unknown
  {
  }
}
