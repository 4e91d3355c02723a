/**
 Filtering sees a packet only in part: the look-ahead that the network card hands over, or a header
 and a data buffer apart. When the verdict is the one the whole packet would get.
*/
module BpfLookahead {
  import opened Machine
  import opened BpfCode
  import opened BpfValidate
  import opened BpfSafety
  import opened BpfStatic

  // ---------------------------------------------------------------- look-ahead

  /** `long` shows at least the bytes that `short` shows, of a packet of the same length. */
  predicate Extends(short: Env, long: Env) {
    && Sound(short) && Sound(long)
    && short.d == long.d && short.buflen <= long.buflen && short.wirelen == long.wirelen
    && short.p[..short.buflen] == long.p[..short.buflen]
  }

  lemma LoadStable(short: Env, long: Env, a: Access)
    requires Extends(short, long)
    ensures Load(short, a) != Stop(OutOfBounds) || short.buflen == long.buflen ==>
      Load(long, a) == Load(short, a)
  {
    if Signed(a.k) >= 0 && Passes(short, a) {
      SamePrefix(short.p, long.p, short.buflen);
    }
  }

  lemma SamePrefix(p: seq<Byte>, q: seq<Byte>, n: nat)
    requires n <= |p| && n <= |q| && p[..n] == q[..n]
    ensures forall i :: 0 <= i < n ==> p[i] == q[i]
  {
    forall i | 0 <= i < n
      ensures p[i] == q[i]
    {
      assert p[..n][i] == q[..n][i];
    }
  }

  lemma StepStable(f: seq<Insn>, short: Env, long: Env, r: Regs)
    requires Extends(short, long)
    ensures Step(f, short, r) != OutOfBounds || short.buflen == long.buflen ==>
      Step(f, long, r) == Step(f, short, r)
  {
    hide Load, Calc, Satisfies, Decode, Encode, BitAnd, BitOr;
    if r.pc < |f| {
      match Offset(f[r.pc], r)
      case Some(a) => LoadStable(short, long, a);
      case None =>
    }
  }

  /**
   A run that does not end at a bounds test ends the same way on every longer part of the packet; and
   the bytes from `buflen` on never matter, whatever the run does.
  */
  lemma {:induction false} LookAheadIsEnough(f: seq<Insn>, short: Env, long: Env, r: Regs, n: nat)
    requires Extends(short, long)
    ensures Run(f, short, r, n) != OutOfBounds || short.buflen == long.buflen ==>
      Run(f, long, r, n) == Run(f, short, r, n)
    decreases n
  {
    hide Step, Extends;
    if n > 0 {
      StepStable(f, short, long, r);
      var o := Step(f, short, r);
      if o.Next? {
        LookAheadIsEnough(f, short, long, o.r, n - 1);
      }
    }
  }

  const FIRST_BYTE := [Insn(0x30, 0, 0, 0), Insn(0x06, 0, 0, 1)]

  /** At a bounds test the verdict is final too early: a packet rejected on no bytes, accepted on one. */
  lemma BoundsTestIsNotFinal(b: Byte, wirelen: U32, mem: seq<U32>)
    ensures Accepted(FIRST_BYTE)
    ensures Extends(Flat(Vxd, [b], wirelen, 0), Flat(Vxd, [b], wirelen, 1))
    ensures Run(FIRST_BYTE, Flat(Vxd, [b], wirelen, 0), Start(mem), 2) == OutOfBounds
    ensures Run(FIRST_BYTE, Flat(Vxd, [b], wirelen, 1), Start(mem), 2) == Return(1)
  {
  }

  // ---------------------------------------------------------------- header and data apart

  /** The packet of a split environment in one piece. */
  function Joined(env: Env): Env
    requires env.Split?
  {
    Flat(env.d, env.hb + env.pd, env.wirelen, env.buflen)
  }

  predicate SoundSplit(env: Env) {
    env.Split? && env.buflen <= |env.hb| + |env.pd| < 0x8000_0000
  }

  /** Loads that filtering over two buffers gets wrong. */
  predicate Misreads(env: Env, a: Access)
    requires env.Split?
  {
    var h := |env.hb|;
    Passes(env, a) && match env.d
      case Vxd => a.w != Octet && a.k <= h
      case Ntx =>
        || a.k + WidthBytes(a.w) > env.buflen
        || (a.w == Word && (a.k + 3 == h || a.k + 2 == h))
        || (a.w == Half && a.k + 1 == h)
  }

  /**
   A load over two buffers agrees with the load on the joined packet except as listed. In the 9x driver
   those are the words and halves that start in the header, whose value is taken from in front of the
   data buffer, or right at its end, where the value is right but a byte behind the header is read as
   well; bytes never notice the split. In the NT driver they are the words with their last one or two
   bytes in the data, the half with its last byte there, and offsets that are negative, or get negative
   on the way, which the tests over two buffers let through.
   */
  lemma SplitLoadExact(env: Env, a: Access)
    requires SoundSplit(env)
    ensures Misreads(env, a) ==> Load(env, a) == OUTSIDE && Load(Joined(env), a) != OUTSIDE
    ensures !Misreads(env, a) ==> Load(env, a) == Load(Joined(env), a)
  {
    if env.d == Vxd {
      VxdSplitLoad(env, a);
    } else if a.k >= 0x8000_0000 {
      NtxSplitWild(env, a);
    } else {
      match a.w
      case Word =>
        if a.k + 4 <= |env.hb| {
          NtxWordInHeader(env, a);
        } else if a.k < |env.hb| {
          NtxWordStraddling(env, a);
        } else {
          NtxWordInData(env, a);
        }
      case Half => NtxSplitHalf(env, a);
      case Octet => NtxSplitOctet(env, a);
    }
  }

  lemma VxdSplitLoad(env: Env, a: Access)
    requires SoundSplit(env) && env.d == Vxd
    ensures Misreads(env, a) ==> Load(env, a) == OUTSIDE && Load(Joined(env), a) != OUTSIDE
    ensures !Misreads(env, a) ==> Load(env, a) == Load(Joined(env), a)
  {
    JoinedBytes(env);
  }

  /** Negative offsets lead outside if they pass at all. */
  lemma NtxSplitWild(env: Env, a: Access)
    requires SoundSplit(env) && env.d == Ntx && a.k >= 0x8000_0000
    ensures Misreads(env, a) ==> Load(env, a) == OUTSIDE && Load(Joined(env), a) != OUTSIDE
    ensures !Misreads(env, a) ==> Load(env, a) == Load(Joined(env), a)
  {
    hide Extract;
  }

  lemma NtxWordInHeader(env: Env, a: Access)
    requires SoundSplit(env) && env.d == Ntx && a.w == Word && a.k < 0x8000_0000 && a.k + 4 <= |env.hb|
    ensures Misreads(env, a) ==> Load(env, a) == OUTSIDE && Load(Joined(env), a) != OUTSIDE
    ensures !Misreads(env, a) ==> Load(env, a) == Load(Joined(env), a)
  {
    JoinedBytes(env);
  }

  lemma NtxWordStraddling(env: Env, a: Access)
    requires SoundSplit(env) && env.d == Ntx && a.w == Word && a.k < 0x8000_0000 && a.k < |env.hb| < a.k + 4
    ensures Misreads(env, a) ==> Load(env, a) == OUTSIDE && Load(Joined(env), a) != OUTSIDE
    ensures !Misreads(env, a) ==> Load(env, a) == Load(Joined(env), a)
  {
    JoinedBytes(env);
  }

  lemma NtxWordInData(env: Env, a: Access)
    requires SoundSplit(env) && env.d == Ntx && a.w == Word && a.k < 0x8000_0000 && |env.hb| <= a.k
    ensures Misreads(env, a) ==> Load(env, a) == OUTSIDE && Load(Joined(env), a) != OUTSIDE
    ensures !Misreads(env, a) ==> Load(env, a) == Load(Joined(env), a)
  {
    JoinedBytes(env);
  }

  lemma NtxSplitHalf(env: Env, a: Access)
    requires SoundSplit(env) && env.d == Ntx && a.w == Half && a.k < 0x8000_0000
    ensures Misreads(env, a) ==> Load(env, a) == OUTSIDE && Load(Joined(env), a) != OUTSIDE
    ensures !Misreads(env, a) ==> Load(env, a) == Load(Joined(env), a)
  {
    JoinedBytes(env);
  }

  lemma NtxSplitOctet(env: Env, a: Access)
    requires SoundSplit(env) && env.d == Ntx && a.w == Octet && a.k < 0x8000_0000
    ensures Misreads(env, a) ==> Load(env, a) == OUTSIDE && Load(Joined(env), a) != OUTSIDE
    ensures !Misreads(env, a) ==> Load(env, a) == Load(Joined(env), a)
  {
    JoinedBytes(env);
  }

  lemma JoinedBytes(env: Env)
    requires env.Split?
    ensures var h, p := |env.hb|, env.hb + env.pd;
      && (forall i :: 0 <= i < h ==> p[i] == env.hb[i])
      && (forall i :: h <= i < |p| ==> p[i] == env.pd[i - h])
  {
  }

  predicate InsnMisreads(i: Insn, env: Env, r: Regs)
    requires env.Split?
  {
    match Offset(i, r)
    case Some(a) => Misreads(env, a)
    case None => false
  }

  lemma SplitStep(f: seq<Insn>, env: Env, r: Regs)
    requires SoundSplit(env) && r.pc < |f|
    ensures if InsnMisreads(f[r.pc], env, r)
      then Step(f, env, r) == Fault(BadRead) && Step(f, Joined(env), r) != Fault(BadRead)
      else Step(f, env, r) == Step(f, Joined(env), r)
  {
    hide Load, Calc, Satisfies, Decode, Encode, BitAnd, BitOr, Misreads;
    match Offset(f[r.pc], r)
    case Some(a) => SplitLoadExact(env, a);
    case None =>
  }

  /** No load along the run over the joined packet is one that filtering over two buffers gets wrong. */
  predicate AvoidsSplit(f: seq<Insn>, env: Env, r: Regs, n: nat)
    requires env.Split?
    decreases n
  {
    n > 0 && r.pc < |f| ==>
      && !InsnMisreads(f[r.pc], env, r)
      && var o := Step(f, Joined(env), r); o.Next? ==> AvoidsSplit(f, env, o.r, n - 1)
  }

  /**
   Filtering over two buffers refines filtering over one exactly for the runs that make no such load;
   any other run reads outside the two buffers.
   */
  lemma {:induction false} TwoBuffersRefine(f: seq<Insn>, env: Env, r: Regs, n: nat)
    requires SoundSplit(env)
    requires Run(f, Joined(env), r, n) != Fault(BadRead)
    ensures Run(f, env, r, n) == Run(f, Joined(env), r, n) <==> AvoidsSplit(f, env, r, n)
    ensures !AvoidsSplit(f, env, r, n) ==> Run(f, env, r, n) == Fault(BadRead)
    decreases n
  {
    hide Step, InsnMisreads;
    if n > 0 {
      if r.pc < |f| {
        SplitStep(f, env, r);
        var o := Step(f, Joined(env), r);
        if o.Next? && !InsnMisreads(f[r.pc], env, r) {
          TwoBuffersRefine(f, env, o.r, n - 1);
        }
      } else {
        OutsideProgram(f, env, r);
      }
    }
  }

  lemma OutsideProgram(f: seq<Insn>, env: Env, r: Regs)
    requires env.Split? && r.pc >= |f|
    ensures Step(f, env, r) == Fault(BadPc) == Step(f, Joined(env), r)
  {
  }

  /**
   A check on the text of a program that rules such loads out for headers of `h` bytes. Indirect loads
   pass where X is known to be small.
   */
  predicate ClearOf(f: seq<Insn>, at: nat, d: Dialect, h: nat)
    requires at < |f|
  {
    var k := f[at].k;
    match Decode(f[at].code)
    case LdAbs(w) =>
      if d == Vxd then w == Octet || k > h
      else k < 0x7fff_0000 && (w == Octet || k >= h || k + WidthBytes(w) <= h || (w == Word && k + 1 == h))
    case LdInd(w) =>
      || (d == Vxd && w == Octet)
      || (BoundedX(f, at, MSH_MAX) && k < 0x7fff_0000 && (w == Octet || k > h || (d == Ntx && AheadOf(w, k, h))))
    case LdxMsh => d == Vxd || k < 0x7fff_0000
    case _ => true
  }

  /** With a small X added, the load still begins at the data or ends with the header. */
  predicate AheadOf(w: Width, k: U32, h: nat) {
    k == h || k + MSH_MAX + WidthBytes(w) <= h
  }

  lemma {:induction false} ClearProgramsAvoid(f: seq<Insn>, env: Env, r: Regs, n: nat)
    requires Accepted(f) && RegsOk(f, r) && SoundSplit(env) && XWithin(f, r, MSH_MAX)
    requires forall at :: 0 <= at < |f| ==> ClearOf(f, at, env.d, |env.hb|)
    ensures AvoidsSplit(f, env, r, n)
    decreases n
  {
    hide Step, Accepted, ClearOf, InsnMisreads, BoundedX;
    if n > 0 {
      ClearInsn(f, env, r);
      var o := Step(f, Joined(env), r);
      if o.Next? {
        StepMoves(f, Joined(env), r);
        StepKeepsBound(f, Joined(env), r, MSH_MAX);
        ClearProgramsAvoid(f, env, o.r, n - 1);
      }
    }
  }

  lemma ClearInsn(f: seq<Insn>, env: Env, r: Regs)
    requires SoundSplit(env) && r.pc < |f| && XWithin(f, r, MSH_MAX) && ClearOf(f, r.pc, env.d, |env.hb|)
    ensures !InsnMisreads(f[r.pc], env, r)
  {
    hide BoundedX, Misreads, AheadOf;
    var k := f[r.pc].k;
    match Decode(f[r.pc].code)
    case LdAbs(w) => ClearAbsolute(env, w, k);
    case LdInd(w) => ClearIndirect(env, w, k, r.X);
    case LdxMsh => ClearAbsolute(env, Octet, k);
    case _ =>
  }

  lemma ClearAbsolute(env: Env, w: Width, k: U32)
    requires SoundSplit(env)
    requires if env.d == Vxd then w == Octet || k > |env.hb| else
      && k < 0x7fff_0000
      && (w == Octet || k >= |env.hb| || k + WidthBytes(w) <= |env.hb| || (w == Word && k + 1 == |env.hb|))
    ensures !Misreads(env, Access(w, k, false))
  {
  }

  lemma ClearIndirect(env: Env, w: Width, k: U32, x: U32)
    requires SoundSplit(env)
    requires (env.d == Vxd && w == Octet) ||
      (x <= MSH_MAX && k < 0x7fff_0000
       && (w == Octet || k > |env.hb| || (env.d == Ntx && AheadOf(w, k, |env.hb|))))
    ensures !Misreads(env, Access(w, (x + k) % TWO32, true))
  {
    if !(env.d == Vxd && w == Octet) {
      assert (x + k) % TWO32 == x + k;
    }
  }

  /** LDX 4*([14]&0xf); LDH [X + 16]; RET A: the destination port of a TCP packet over Ethernet. */
  const TCP_PORT := [Insn(0xb1, 0, 0, 14), Insn(0x48, 0, 0, 16), Insn(0x16, 0, 0, 0)]

  /** The checks cover it: it gives a verdict on every packet, and with the header apart the same one. */
  lemma TcpPortIsCovered(d: Dialect, hb: seq<Byte>, pd: seq<Byte>, wirelen: U32, mem: seq<U32>)
    requires |hb| == 14 && |hb| + |pd| < 0x8000_0000 && |mem| == BPF_MEMWORDS
    ensures var o := Run(TCP_PORT, Joined(Split(d, hb, pd, wirelen, |hb| + |pd|)), Start(mem), 3);
      && (o.Return? || o == OutOfBounds)
      && Run(TCP_PORT, Split(d, hb, pd, wirelen, |hb| + |pd|), Start(mem), 3) == o
  {
    var f, env := TCP_PORT, Split(d, hb, pd, wirelen, |hb| + |pd|);
    TcpPortPasses(d);
    TameProgramsGiveVerdicts(f, Joined(env), mem);
    ClearProgramsAvoid(f, env, Start(mem), 3);
    TwoBuffersRefine(f, env, Start(mem), 3);
  }

  lemma TcpPortPasses(d: Dialect)
    ensures Accepted(TCP_PORT)
    ensures forall at :: 0 <= at < |TCP_PORT| ==> Tame(TCP_PORT, at) && ClearOf(TCP_PORT, at, d, 14)
  {
    var f := TCP_PORT;
    assert Targets(f[0], 0) == {1};
    assert BoundedX(f, 1, MSH_MAX);
  }

  const ETHER_TYPE := [Insn(0x28, 0, 0, 12), Insn(0x16, 0, 0, 0)]

  /**
   The commonest test of all, the type field at offset 12, goes wrong in the 9x driver when the
   Ethernet header comes in a buffer of its own, and right in the NT driver.
   */
  lemma EtherTypeGoesWrong(d: Dialect, hb: seq<Byte>, pd: seq<Byte>, wirelen: U32, mem: seq<U32>)
    requires |hb| == 14 && |hb| + |pd| < 0x8000_0000
    ensures Accepted(ETHER_TYPE)
    ensures Run(ETHER_TYPE, Split(d, hb, pd, wirelen, |hb| + |pd|), Start(mem), 2) ==
      if d == Vxd then Fault(BadRead) else Return(hb[12] as int * 0x100 + hb[13] as int)
  {
    assert Plus(12, 2) == 14 && Signed(12) == 12;
    var env := Split(d, hb, pd, wirelen, |hb| + |pd|);
    var a := Access(Half, 12, false);
    assert Passes(env, a);
    assert Load(env, a) == if d == Vxd then OUTSIDE else FlatLoad(hb, Half, 12);
  }

  const TYPE_AND_MORE := [Insn(0x20, 0, 0, 12), Insn(0x16, 0, 0, 0)]

  /** A word that takes two bytes from the header and two from the data goes wrong in both. */
  lemma StraddlingWordGoesWrong(d: Dialect, hb: seq<Byte>, pd: seq<Byte>, wirelen: U32, mem: seq<U32>)
    requires |hb| == 14 && |pd| >= 2 && |hb| + |pd| < 0x8000_0000
    ensures Accepted(TYPE_AND_MORE)
    ensures Run(TYPE_AND_MORE, Split(d, hb, pd, wirelen, |hb| + |pd|), Start(mem), 2) == Fault(BadRead)
    ensures Run(TYPE_AND_MORE, Joined(Split(d, hb, pd, wirelen, |hb| + |pd|)), Start(mem), 2).Return?
  {
    var env := Split(d, hb, pd, wirelen, |hb| + |pd|);
    var a := Access(Word, 12, false);
    assert Plus(12, 4) == 16 && Signed(12) == 12;
    assert Misreads(env, a);
    SplitLoadExact(env, a);
    assert Load(Joined(env), a).Value?;
  }
}
