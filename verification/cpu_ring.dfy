/**
 The per-CPU capture buffer as the driver updates it in place: `CpuPrivateData` with the copy paths
 of NPF_tap and NPF_TransferDataComplete, and the copy-out of NPF_Read. `size` is Open->Size. Each
 CPU's ring is a slice of one allocation shared by all of them.
*/
module CpuRing {
  import opened Machine
  import opened RingImage
  import opened RingWrite

  /** A memory descriptor list over part of the ring. */
  datatype Mdl = Mdl(off: nat, len: nat)

  /** Which of the allocations needed for an NdisTransferData succeed. */
  datatype Pools = Pools(mdl1: bool, mdl2: bool, packet: bool)

  /** The MDLs cover the last `n - front` payload bytes of the record at `p`, and `newP` is their end. */
  ghost predicate Described(size: nat, p: nat, newP: nat, mdl1: Mdl, mdl2: Option<Mdl>, front: nat, n: nat) {
    && Fits(size, p, n) && front < n && newP == PayloadEnd(size, p, n)
    && var off := Fold(size, PayloadStart(size, p) + front);
       var rest := n - front;
       if size - off >= rest then mdl1 == Mdl(off, rest) && mdl2 == None
       else mdl1 == Mdl(off, size - off) && mdl2 == Some(Mdl(0, rest - (size - off)))
  }

  /** The record at `p` has its lengths and the first `front` of its `n` payload bytes. */
  ghost predicate HalfStored(s: seq<Byte>, p: nat, front: seq<Byte>, n: U32, datalen: U32) {
    && Fits(|s|, p, n) && |front| < n
    && s[p + 12..p + 22] == LengthBytes(n, datalen, BPF_HDR)
    && forall x :: 0 <= x < |front| ==> Nth(s, p, HEADER + x) == front[x]
  }

  /** Front part stored since image `s`: inside the reserved bytes, header untouched. */
  ghost predicate FrontIn(s: seq<Byte>, t: seq<Byte>, p: nat, front: seq<Byte>, n: nat) {
    && Fits(|s|, p, n) && |front| <= n && |t| == |s|
    && OnlyWithin(s, t, p, HEADER + n)
    && t[p..p + HEADER] == s[p..p + HEADER]
    && forall x :: 0 <= x < |front| ==> Nth(t, p, HEADER + x) == front[x]
  }

  /** Front part and lengths stored since image `s`, the padding still as it was. */
  ghost predicate LengthsIn(s: seq<Byte>, t: seq<Byte>, p: nat, front: seq<Byte>, n: U32, datalen: U32) {
    && Fits(|s|, p, n) && |t| == |s|
    && OnlyWithin(s, t, p, HEADER + n)
    && t[p + 22..p + HEADER] == s[p + 22..p + HEADER]
    && (|front| < n ==> HalfStored(t, p, front, n, datalen))
  }

  /**
   The descriptors needed for the last `n - front` payload bytes of the record at `p` can be had: one, or
   two if these bytes go round the end of the ring.
   */
  predicate Describable(size: nat, p: nat, front: nat, n: nat, pools: Pools)
    requires size > 0
  {
    && pools.packet && pools.mdl1
    && (pools.mdl2 || (p + HEADER + front) % size + (n - front) <= size)
  }

  lemma FrontEnds(size: nat, p: nat, front: nat, n: nat)
    requires Fits(size, p, n) && front <= n
    ensures Fold(size, PayloadStart(size, p) + front) == (p + HEADER + front) % size
  {
    FoldIsModulo(size, p + HEADER + front);
  }

  /** The end of the missing bytes is the end of the payload. */
  lemma RestEndsRecord(size: nat, p: nat, front: nat, n: nat, off: nat, newP: nat)
    requires Fits(size, p, n) && front < n && off == Fold(size, PayloadStart(size, p) + front)
    requires newP == if size - off >= n - front then off + (n - front) else n - front - (size - off)
    ensures newP == PayloadEnd(size, p, n)
  {
  }

  class CpuPrivateData {
    var Buffer: array<Byte>
    var base: nat
    var P: nat
    var C: nat
    var Free: nat
    var NewP: nat
    var Accepted: nat
    var Received: nat
    var Dropped: nat
    ghost var Rejected: nat
    var TransferMdl1: Option<Mdl>
    var TransferMdl2: Option<Mdl>
    ghost var front: seq<Byte>  // what a pending transfer has stored so far

    constructor ()
      ensures P == C == Free == NewP == Accepted == Received == Dropped == Rejected == base == 0
      ensures TransferMdl1 == None && TransferMdl2 == None && fresh(Buffer) && Buffer.Length == 0
    {
      Buffer := new Byte[0];
      base, P, C, Free, NewP := 0, 0, 0, 0, 0;
      Accepted, Received, Dropped, Rejected := 0, 0, 0, 0;
      TransferMdl1, TransferMdl2 := None, None;
      front := [];
    }

    /** Empty the ring and start counting anew. */
    method Reset(size: nat)
      modifies this`P, this`C, this`Free, this`Accepted, this`Received, this`Dropped, this`Rejected
      ensures P == C == Accepted == Received == Dropped == Rejected == 0 && Free == size
    {
      C, P, Free := 0, 0, size;
      Accepted, Dropped, Received, Rejected := 0, 0, 0, 0;
    }

    predicate InBuffer(size: nat)
      reads `base, `Buffer
    {
      base + size <= Buffer.Length
    }

    /** The bytes of this CPU's slice. */
    function Image(size: nat): (s: seq<Byte>)
      requires InBuffer(size)
      reads `base, `Buffer, Buffer
      ensures |s| == size
    {
      Buffer[base..base + size]
    }

    /** The bytes before and after the slice, which belong to the other CPUs. */
    ghost function Others(size: nat): (seq<Byte>, seq<Byte>)
      requires InBuffer(size)
      reads `base, `Buffer, Buffer
    {
      (Buffer[..base], Buffer[base + size..])
    }

    /** Offsets and free count fit together, as RingAccounting proves of every reachable state. */
    ghost predicate Geometry(size: nat)
      reads this
    {
      && InBuffer(size)
      && P + HEADER <= size && C + HEADER <= size
      && Free <= size && Congruent(size, P + Free, C)
    }

    /** NdisMoveMappedMemory into the ring. */
    method Move(size: nat, off: nat, d: seq<Byte>)
      requires InBuffer(size) && off + |d| <= size
      modifies Buffer
      ensures Image(size) == Blit(old(Image(size)), off, d)
      ensures Others(size) == old(Others(size))
    {
      forall k | 0 <= k < |d| {
        Buffer[base + off + k] := d[k];
      }
      assert Buffer[..base] == old(Buffer[..base]) && Buffer[base + size..] == old(Buffer[base + size..]);
      ghost var t := Blit(old(Image(size)), off, d);
      forall k | 0 <= k < size
        ensures Image(size)[k] == t[k]
      {
        BlitAt(old(Image(size)), off, d, k);
        assert Image(size)[k] == Buffer[base + k];
      }
    }

    // -------------------------------------------------------------- NPF_tap, the packet is at hand

    /** One copy: the bytes fit before the end of the ring. */
    method StoreWhole(size: nat, d: seq<Byte>) returns (ghost cs: seq<Copy>)
      requires InBuffer(size) && P < size && P + |d| <= size
      modifies this`P, Buffer
      ensures StepByStep(old(Image(size)), Image(size), cs, old(P), |d|)
      ensures Image(size) == WrapWrite(old(Image(size)), old(P), d)
      ensures P == old(P) + |d|
      ensures Others(size) == old(Others(size))
    {
      hide Others, StepByStep;
      BlitIsWrapWrite(Image(size), P, d);
      WholeMove(Image(size), P, d);
      cs := [Copy(P, d)];
      Move(size, P, d);
      P := P + |d|;
    }

    /** Two copies: the bytes skip the end of the ring. */
    method StoreSplit(size: nat, d: seq<Byte>) returns (ghost cs: seq<Copy>)
      requires InBuffer(size) && P < size && |d| <= size && size - P < |d|
      modifies this`P, Buffer
      ensures StepByStep(old(Image(size)), Image(size), cs, old(P), |d|)
      ensures Image(size) == WrapWrite(old(Image(size)), old(P), d)
      ensures P == |d| - (size - old(P))
      ensures Others(size) == old(Others(size))
    {
      hide Others, StepByStep;
      TwoBlits(Image(size), P, d);
      SplitMoves(Image(size), P, d);
      var toCopy := size - P;
      cs := [Copy(P, d[..toCopy]), Copy(0, d[toCopy..])];
      Move(size, P, d[..toCopy]);
      Move(size, 0, d[toCopy..]);
      P := |d| - toCopy;
    }

    /** Header and look-ahead lie in one piece of memory `flat`: one move, or two round the end. */
    method StoreContiguous(size: nat, flat: seq<Byte>, fres: nat) returns (ghost cs: seq<Copy>)
      requires InBuffer(size) && P < size && fres <= size && fres <= |flat|
      modifies this`P, Buffer
      ensures StepByStep(old(Image(size)), Image(size), cs, old(P), fres)
      ensures Image(size) == WrapWrite(old(Image(size)), old(P), flat[..fres])
      ensures P == if size - old(P) < fres then fres - (size - old(P)) else old(P) + fres
      ensures Others(size) == old(Others(size))
    {
      hide StepByStep;
      if size - P < fres {
        cs := StoreSplit(size, flat[..fres]);
      } else {
        cs := StoreWhole(size, flat[..fres]);
      }
    }

    /** Header and look-ahead are apart and both are needed: every way the end can cut them. */
    method StoreTwoBuffers(size: nat, hb: seq<Byte>, look: seq<Byte>, fres: nat) returns (ghost cs: seq<Copy>)
      requires InBuffer(size) && P < size && fres <= size && |hb| < fres <= |hb| + |look|
      modifies this`P, Buffer
      ensures StepByStep(old(Image(size)), Image(size), cs, old(P), fres)
      ensures Image(size) == WrapWrite(old(Image(size)), old(P), (hb + look)[..fres])
      ensures P == if size - old(P) < fres then fres - (size - old(P)) else old(P) + fres
      ensures Others(size) == old(Others(size))
    {
      hide WrapWrite, Others, StepByStep;
      var n := fres - |hb|;
      assert (hb + look)[..fres] == hb + look[..n];
      if size - P < fres {
        cs := StoreAcrossEnd(size, hb, look[..n]);
      } else {
        ghost var s, p := Image(size), P;
        WrapWriteSplit(Image(size), P, hb, look[..n]);
        cs := StoreWhole(size, hb);
        ghost var mid := Image(size);
        ghost var b := StoreWhole(size, look[..n]);
        MovesJoin(s, mid, Image(size), cs, b, p, |hb|, n);
        cs := cs + b;
      }
    }

    /** The end of the ring cuts the look-ahead, lies between the two buffers, or cuts the header. */
    method StoreAcrossEnd(size: nat, hb: seq<Byte>, look: seq<Byte>) returns (ghost cs: seq<Copy>)
      requires InBuffer(size) && P < size && |hb| + |look| <= size && size - P < |hb| + |look|
      modifies this`P, Buffer
      ensures StepByStep(old(Image(size)), Image(size), cs, old(P), |hb| + |look|)
      ensures Image(size) == WrapWrite(old(Image(size)), old(P), hb + look)
      ensures P == |hb| + |look| - (size - old(P))
      ensures Others(size) == old(Others(size))
    {
      hide WrapWrite, Others, StepByStep;
      ghost var s, p, mid, b := Image(size), P, [], [];
      WrapWriteSplit(Image(size), P, hb, look);
      if size - P >= |hb| {
        cs := StoreWhole(size, hb);
        mid := Image(size);
        if P == size {
          P := 0;
          b := StoreWhole(size, look);
        } else {
          b := StoreSplit(size, look);
        }
      } else {
        cs := StoreSplit(size, hb);
        mid := Image(size);
        b := StoreWhole(size, look);
      }
      MovesJoin(s, mid, Image(size), cs, b, p, |hb|, |look|);
      cs := cs + b;
    }

    /** The first `fres` bytes of the packet, wherever they are. */
    method StorePayload(size: nat, hb: seq<Byte>, look: seq<Byte>, contiguous: bool, fres: nat)
      returns (ghost cs: seq<Copy>)
      requires InBuffer(size) && P < size && fres <= size && fres <= |hb| + |look|
      modifies this`P, Buffer
      ensures StepByStep(old(Image(size)), Image(size), cs, old(P), fres)
      ensures Image(size) == WrapWrite(old(Image(size)), old(P), (hb + look)[..fres])
      ensures P == if size - old(P) < fres then fres - (size - old(P)) else old(P) + fres
      ensures Others(size) == old(Others(size))
    {
      hide WrapWrite, Others, StepByStep;
      if fres <= |hb| || contiguous {
        cs := StoreContiguous(size, if contiguous then hb + look else hb, fres);
        assert (if contiguous then hb + look else hb)[..fres] == (hb + look)[..fres];
      } else {
        cs := StoreTwoBuffers(size, hb, look, fres);
      }
    }

    /** The increment of `Free`, with the skip of a tail too short for a header, and its publication. */
    method Commit(size: nat, caplen: nat, ghost p: nat)
      requires Fits(size, p, caplen) && P == PayloadEnd(size, p, caplen)
      requires Increment(size, p, caplen) <= Free
      modifies this`P, this`Free
      ensures P == Next(size, p, caplen)
      ensures Free == old(Free) - Increment(size, p, caplen)
    {
      var increment := caplen + HEADER;
      if size - P < HEADER {
        increment := increment + (size - P);
        P := 0;
      }
      Free := Free - increment;
    }

    /** The packet bytes wanted are all in HeaderBuffer and LookaheadBuffer: copy, number, publish. */
    method TapDirect(size: nat, hb: seq<Byte>, look: seq<Byte>, contiguous: bool, fres: U32, datalen: U32,
                     sec: U32, usec: U32, writerSN: U32) returns (writerSN': U32, ghost cs: seq<Copy>)
      requires Geometry(size) && fres <= |hb| + |look| && fres + HEADER <= Free
      modifies this`P, this`Free, this`Accepted, Buffer
      ensures StepByStep(old(Image(size)), Image(size), cs, old(P), HEADER + fres)
      ensures writerSN' == (writerSN + 1) % TWO32 && Accepted == old(Accepted) + 1
      ensures Fits(size, old(P), fres)
      ensures Image(size) == RecordImage(old(Image(size)), old(P), writerSN,
                                         BpfHdr(sec, usec, fres, datalen, BPF_HDR), (hb + look)[..fres])
      ensures P == Next(size, old(P), fres) && Free == old(Free) - Increment(size, old(P), fres)
      ensures Others(size) == old(Others(size))
    {
      hide WrapWrite, RecordImage, Others, Next, Increment, StepByStep, PayloadEnd;
      ghost var p := P;
      SkipIsFree(size, P, C, Free, fres);
      Accepted := Accepted + 1;
      writerSN' := (writerSN + 1) % TWO32;
      cs := StoreRecord(size, hb, look, contiguous, fres, datalen, sec, usec, writerSN);
      Commit(size, fres, p);
    }

    /** Header and payload of the record at P; P goes to the end of the payload. */
    method StoreRecord(size: nat, hb: seq<Byte>, look: seq<Byte>, contiguous: bool, fres: U32, datalen: U32,
                       sec: U32, usec: U32, sn: U32) returns (ghost cs: seq<Copy>)
      requires InBuffer(size) && Fits(size, P, fres) && fres <= |hb| + |look|
      modifies this`P, Buffer
      ensures StepByStep(old(Image(size)), Image(size), cs, old(P), HEADER + fres)
      ensures Image(size) == RecordImage(old(Image(size)), old(P), sn,
                                         BpfHdr(sec, usec, fres, datalen, BPF_HDR), (hb + look)[..fres])
      ensures P == PayloadEnd(size, old(P), fres)
      ensures Others(size) == old(Others(size))
    {
      hide WrapWrite, Blit, HeaderBytes, RecordImage, Others, StepByStep;
      ghost var s, p := Image(size), P;
      ghost var h := BpfHdr(sec, usec, fres, datalen, BPF_HDR);
      ghost var a := StoreHeader(size, sn, sec, usec, fres, datalen);
      ghost var mid := Image(size);
      P := P + HEADER;
      if P == size {
        P := 0;
      }
      ghost var b := StorePayload(size, hb, look, contiguous, fres);
      cs := a + b;
      MovesJoin(s, mid, Image(size), a, b, p, HEADER, fres);
      HeaderThenPayload(s, p, sn, h, (hb + look)[..fres]);
    }

    /** The fields of the record header, one store after the other. */
    method StoreHeader(size: nat, sn: U32, sec: U32, usec: U32, caplen: U32, datalen: U32)
      returns (ghost cs: seq<Copy>)
      requires InBuffer(size) && P + HEADER <= size
      modifies Buffer
      ensures StepByStep(old(Image(size)), Image(size), cs, P, HEADER)
      ensures var s := old(Image(size));
              var h := BpfHdr(sec, usec, caplen, datalen, BPF_HDR);
              Image(size) == Blit(s, P, HeaderBytes(sn, h, s[P + 22..P + HEADER]))
      ensures Others(size) == old(Others(size))
    {
      hide StampBytes, LengthBytes, Blit, Others, HeaderBytes, StepByStep;
      HeaderInTwo(Image(size), P, sn, BpfHdr(sec, usec, caplen, datalen, BPF_HDR));
      ghost var s, a, b := Image(size), StampBytes(sn, sec, usec), LengthBytes(caplen, datalen, BPF_HDR);
      OneMove(s, Copy(P, a), P, HEADER);
      OneMove(Blit(s, P, a), Copy(P + 12, b), P, HEADER);
      MovesThen(s, Blit(s, P, a), Blit(Blit(s, P, a), P + 12, b), [Copy(P, a)], [Copy(P + 12, b)], P, HEADER);
      cs := [Copy(P, a)] + [Copy(P + 12, b)];
      Move(size, P, StampBytes(sn, sec, usec));
      Move(size, P + 12, LengthBytes(caplen, datalen, BPF_HDR));
    }

    // -------------------------------------------------------------- NPF_tap, NdisTransferData needed

    /** One buffer stored at NewP, which goes back to 0 when it comes to the end of the ring. */
    method StoreAtNewP(size: nat, d: seq<Byte>) returns (ghost cs: seq<Copy>)
      requires InBuffer(size) && NewP < size && |d| <= size
      modifies this`NewP, Buffer
      ensures StepByStep(old(Image(size)), Image(size), cs, old(NewP), |d|)
      ensures Image(size) == WrapWrite(old(Image(size)), old(NewP), d)
      ensures NewP == Fold(size, old(NewP) + |d|)
      ensures Others(size) == old(Others(size))
    {
      hide Others, WrapWrite, StepByStep, Blit;
      if size - NewP >= |d| {
        BlitIsWrapWrite(Image(size), NewP, d);
        WholeMove(Image(size), NewP, d);
        cs := [Copy(NewP, d)];
        Move(size, NewP, d);
        NewP := NewP + |d|;
        if NewP == size {
          NewP := 0;
        }
      } else {
        TwoBlits(Image(size), NewP, d);
        SplitMoves(Image(size), NewP, d);
        var toCopy := size - NewP;
        cs := [Copy(NewP, d[..toCopy]), Copy(0, d[toCopy..])];
        Move(size, NewP, d[..toCopy]);
        Move(size, 0, d[toCopy..]);
        NewP := |d| - toCopy;
      }
    }

    /** Describe the room for the bytes still missing; false if a descriptor cannot be allocated. */
    method DescribeRest(size: nat, rest: nat, pools: Pools) returns (mdls: Option<(Mdl, Option<Mdl>)>)
      requires NewP < size && 0 < rest <= size
      modifies this`NewP, this`Dropped
      ensures var off := old(NewP);
              mdls == if size - off >= rest
                      then if pools.mdl1 then Some((Mdl(off, rest), None)) else None
                      else if pools.mdl1 && pools.mdl2
                      then Some((Mdl(off, size - off), Some(Mdl(0, rest - (size - off))))) else None
      ensures mdls.Some? ==> Dropped == old(Dropped)
                             && NewP == if size - old(NewP) >= rest then old(NewP) + rest else rest - (size - old(NewP))
      ensures mdls.None? ==> Dropped == old(Dropped) + 1
    {
      if size - NewP >= rest {
        if !pools.mdl1 {
          Dropped := Dropped + 1;
          return None;
        }
        mdls := Some((Mdl(NewP, rest), None));
        NewP := NewP + rest;
      } else {
        if !pools.mdl1 || !pools.mdl2 {
          Dropped := Dropped + 1;
          return None;
        }
        mdls := Some((Mdl(NewP, size - NewP), Some(Mdl(0, rest - (size - NewP)))));
        NewP := rest - (size - NewP);
      }
    }

    /** Header and look-ahead go to their place behind the header still to be written. */
    method StoreFront(size: nat, hb: seq<Byte>, look: seq<Byte>, ghost n: nat) returns (ghost cs: seq<Copy>)
      requires InBuffer(size) && Fits(size, P, n) && |hb| + |look| <= n
      modifies this`NewP, Buffer
      ensures StepByStep(old(Image(size)), Image(size), cs, P, HEADER + n)
      ensures FrontIn(old(Image(size)), Image(size), P, hb + look, n)
      ensures NewP == Fold(size, PayloadStart(size, P) + |hb + look|) && NewP < size
      ensures Others(size) == old(Others(size))
    {
      hide WrapWrite, FrontIn, Others, StepByStep;
      ghost var s := Image(size);
      FrontStored(Image(size), P, hb + look, n);
      NewP := P + HEADER;
      if NewP == size {
        NewP := 0;
      }
      WrapWriteSplit(Image(size), NewP, hb, look);
      ghost var q := NewP;
      ghost var a := StoreAtNewP(size, hb);
      ghost var mid := Image(size);
      ghost var b := StoreAtNewP(size, look);
      cs := a + b;
      MovesJoin(s, mid, Image(size), a, b, q, |hb|, |look|);
      MovesWithin(s, Image(size), cs, P, HEADER, |hb| + |look|, HEADER + n);
    }

    /** The lengths of the record to come. */
    method StoreLengths(size: nat, fres: U32, datalen: U32, ghost s: seq<Byte>, ghost front: seq<Byte>)
      returns (ghost cs: seq<Copy>)
      requires InBuffer(size) && Fits(size, P, fres) && FrontIn(s, Image(size), P, front, fres)
      modifies Buffer
      ensures StepByStep(old(Image(size)), Image(size), cs, P, HEADER + fres)
      ensures LengthsIn(s, Image(size), P, front, fres, datalen)
      ensures Others(size) == old(Others(size))
    {
      hide Blit, LengthBytes, LengthsIn, Others, FrontIn, StepByStep;
      LengthsStored(s, Image(size), P, front, fres, datalen);
      cs := [Copy(P + 12, LengthBytes(fres, datalen, BPF_HDR))];
      OneMove(Image(size), cs[0], P, HEADER + fres);
      Move(size, P + 12, LengthBytes(fres, datalen, BPF_HDR));
    }

    /**
     The look-ahead does not reach far enough: store what there is, describe the rest to NDIS. All
     stores stay inside the bytes reserved for the record. False if an allocation failed.
    */
    method TapTransfer(size: nat, hb: seq<Byte>, look: seq<Byte>, fres: U32, datalen: U32, pools: Pools)
      returns (ok: bool, ghost cs: seq<Copy>)
      requires Geometry(size) && |hb| + |look| < fres && fres + HEADER <= Free
      modifies this`NewP, this`Dropped, this`TransferMdl1, this`TransferMdl2, this`front, Buffer
      ensures ok == Describable(size, P, |hb + look|, fres, pools)
      ensures pools == Pools(true, true, true) ==> ok
      ensures !pools.mdl1 || !pools.packet ==> !ok
      ensures pools == Pools(true, false, true) ==>
                (ok <==> (P + HEADER + |hb| + |look|) % size + (fres - |hb| - |look|) <= size)
      ensures OnlyWithin(old(Image(size)), Image(size), P, HEADER + fres)
      ensures StepByStep(old(Image(size)), Image(size), cs, P, HEADER + fres)
      ensures Others(size) == old(Others(size))
      ensures ok ==> TransferMdl1.Some? && Dropped == old(Dropped) && front == hb + look
                     && LengthsIn(old(Image(size)), Image(size), P, hb + look, fres, datalen)
                     && HalfStored(Image(size), P, front, fres, datalen)
                     && Described(size, P, NewP, TransferMdl1.value, TransferMdl2, |hb + look|, fres)
      ensures !ok ==>
                && Dropped == old(Dropped) + 1
                && TransferMdl1 == old(TransferMdl1) && TransferMdl2 == old(TransferMdl2)
    {
      hide LengthBytes, Others, Nth, OnlyWithin, StepByStep, FrontIn, HalfStored, LengthsIn;
      hide PayloadStart, PayloadEnd, Fold, Congruent;
      ghost var s := Image(size);
      cs := StoreFront(size, hb, look, fres);
      ghost var mid, off := Image(size), NewP;
      FrontEnds(size, P, |hb + look|, fres);
      FrontWithin(s, mid, P, hb + look, fres);
      ok := false;
      var mdls := DescribeRest(size, fres - |hb| - |look|, pools);
      if mdls.None? {
        return;
      }
      if !pools.packet {
        Dropped := Dropped + 1;
        return;
      }
      TransferMdl1 := Some(mdls.value.0);
      TransferMdl2 := mdls.value.1;
      front := hb + look;
      RestEndsRecord(size, P, |front|, fres, off, NewP);
      ghost var b := StoreLengths(size, fres, datalen, s, front);
      LengthsWithin(s, Image(size), P, front, fres, datalen);
      MovesThen(s, mid, Image(size), cs, b, P, HEADER + fres);
      cs := cs + b;
      ok := true;
    }

    /** NDIS fills the described bytes. */
    method FillMdls(size: nat, rest: seq<Byte>) returns (ghost cs: seq<Copy>)
      requires InBuffer(size) && TransferMdl1.Some? && TransferMdl1.value.off < size && |rest| <= size
      requires var off := TransferMdl1.value.off;
               if size - off >= |rest| then TransferMdl1.value.len == |rest| && TransferMdl2 == None
               else TransferMdl1.value.len == size - off && TransferMdl2 == Some(Mdl(0, |rest| - (size - off)))
      modifies Buffer
      ensures StepByStep(old(Image(size)), Image(size), cs, TransferMdl1.value.off, |rest|)
      ensures Image(size) == WrapWrite(old(Image(size)), TransferMdl1.value.off, rest)
      ensures Others(size) == old(Others(size))
    {
      hide Others, WrapWrite, StepByStep, Blit;
      var m := TransferMdl1.value;
      if TransferMdl2.None? {
        BlitIsWrapWrite(Image(size), m.off, rest);
        WholeMove(Image(size), m.off, rest);
        cs := [Copy(m.off, rest)];
        Move(size, m.off, rest);
      } else {
        TwoBlits(Image(size), m.off, rest);
        SplitMoves(Image(size), m.off, rest);
        cs := [Copy(m.off, rest[..m.len]), Copy(0, rest[m.len..])];
        Move(size, m.off, rest[..m.len]);
        Move(size, TransferMdl2.value.off, rest[m.len..]);
      }
    }

    /** The missing bytes arrive, and the record gets its time stamp and number. */
    method FinishRecord(size: nat, rest: seq<Byte>, sec: U32, usec: U32, sn: U32,
                        ghost n: U32, ghost datalen: U32)
      returns (ghost mid: seq<Byte>, ghost fill: seq<Copy>, ghost stamp: seq<Copy>)
      requires InBuffer(size) && TransferMdl1.Some? && |front| + |rest| == n && |rest| > 0
      requires Described(size, P, NewP, TransferMdl1.value, TransferMdl2, |front|, n)
      requires HalfStored(Image(size), P, front, n, datalen)
      modifies Buffer
      ensures var h := BpfHdr(sec, usec, n, datalen, BPF_HDR);
              && Image(size) == RecordImage(old(Image(size)), P, sn, h, front + rest)
              && HeaderAt(Image(size), P + 4) == h
      ensures StepByStep(old(Image(size)), mid, fill, P, HEADER + n)
      ensures StepByStep(mid, Image(size), stamp, P, HEADER + n)
      ensures Others(size) == old(Others(size))
    {
      hide WrapWrite, Blit, StampBytes, LengthBytes, RecordImage, HeaderAt, Nth, Others, StepByStep;
      ghost var s := Image(size);
      RestCompletes(Image(size), P, front, rest, datalen, sn, sec, usec);
      fill := FillMdls(size, rest);
      mid := Image(size);
      RestWithin(s, mid, fill, P, |front|, |rest|);
      stamp := [Copy(P, StampBytes(sn, sec, usec))];
      OneMove(mid, stamp[0], P, HEADER + n);
      Move(size, P, StampBytes(sn, sec, usec));
    }

    /**
     NPF_TransferDataComplete, and the non-pending tail of the tap: the record is completed with its
     time stamp and number, and published. The increment is computed from the caplen in the ring.
    */
    method CompleteTransfer(size: nat, rest: seq<Byte>, sec: U32, usec: U32, writerSN: U32,
                            ghost n: U32, ghost datalen: U32)
      returns (writerSN': U32, ghost mid: seq<Byte>, ghost fill: seq<Copy>, ghost stamp: seq<Copy>)
      requires Geometry(size) && TransferMdl1.Some? && |front| + |rest| == n && |rest| > 0 && n + HEADER <= Free
      requires Described(size, P, NewP, TransferMdl1.value, TransferMdl2, |front|, n)
      requires HalfStored(Image(size), P, front, n, datalen)
      modifies this`P, this`Free, this`Accepted, this`TransferMdl1, this`TransferMdl2, Buffer
      ensures writerSN' == (writerSN + 1) % TWO32 && Accepted == old(Accepted) + 1
      ensures TransferMdl1 == None && TransferMdl2 == None
      ensures StepByStep(old(Image(size)), mid, fill, old(P), HEADER + n)
      ensures StepByStep(mid, Image(size), stamp, old(P), HEADER + n)
      ensures Image(size) == RecordImage(old(Image(size)), old(P), writerSN,
                                         BpfHdr(sec, usec, n, datalen, BPF_HDR), front + rest)
      ensures P == Next(size, old(P), n) && Free == old(Free) - Increment(size, old(P), n)
      ensures Others(size) == old(Others(size))
    {
      hide RecordImage, HeaderAt, Others, HalfStored, StepByStep;
      ghost var p := P;
      SkipIsFree(size, P, C, Free, n);
      Accepted := Accepted + 1;
      writerSN' := (writerSN + 1) % TWO32;
      mid, fill, stamp := FinishRecord(size, rest, sec, usec, writerSN, n, datalen);
      var caplen := HeaderAt(Image(size), P + 4).caplen;
      P := NewP;
      Commit(size, caplen, p);
      TransferMdl1 := None;
      TransferMdl2 := None;
    }

    // -------------------------------------------------------------- NPF_Read

    /** RtlCopyMemory out of the ring. */
    method MoveOut(size: nat, off: nat, n: nat, user: array<Byte>, at: nat)
      requires InBuffer(size) && user != Buffer && off + n <= size && at + n <= user.Length
      modifies user
      ensures user[..] == Blit(old(user[..]), at, Image(size)[off..off + n])
    {
      forall k | 0 <= k < n {
        user[at + k] := Buffer[base + off + k];
      }
      ghost var d := Image(size)[off..off + n];
      ghost var t := Blit(old(user[..]), at, d);
      forall k | 0 <= k < user.Length
        ensures user[k] == t[k]
      {
        BlitAt(old(user[..]), at, d, k);
        if at <= k < at + n {
          assert user[k] == Buffer[base + off + (k - at)];
          assert d[k - at] == Image(size)[off + (k - at)];
        } else {
          assert user[k] == old(user[..])[k];
        }
      }
    }

    /** Two copies, to the end of the ring and from its start. */
    method TakeSplit(size: nat, plen: nat, user: array<Byte>, at: nat)
      requires InBuffer(size) && user != Buffer && C < size && size - C < plen <= size && at + plen <= user.Length
      modifies user, this`C
      ensures user[..] == Blit(old(user[..]), at, PayloadBytes(Image(size), old(C), plen))
      ensures C == plen - (size - old(C))
    {
      hide Blit;
      var toCopy := size - C;
      assert Image(size)[C..] == Image(size)[C..C + toCopy];
      BlitJoin(user[..], at, Image(size)[C..C + toCopy], Image(size)[0..plen - toCopy]);
      MoveOut(size, C, toCopy, user, at);
      MoveOut(size, 0, plen - toCopy, user, at + toCopy);
      C := plen - toCopy;
    }

    /** The payload, in one piece or in two. */
    method TakePayload(size: nat, plen: nat, user: array<Byte>, at: nat)
      requires InBuffer(size) && user != Buffer && C < size && plen <= size && at + plen <= user.Length
      modifies user, this`C
      ensures user[..] == Blit(old(user[..]), at, PayloadBytes(Image(size), old(C), plen))
      ensures C == if size - old(C) < plen then plen - (size - old(C)) else old(C) + plen
    {
      hide Blit;
      if size - C < plen {
        TakeSplit(size, plen, user, at);
      } else {
        MoveOut(size, C, plen, user, at);
        C := C + plen;
      }
    }

    /** Copy the record at C, without its number, out to `user`, and give its bytes back. */
    method TakeHead(size: nat, user: array<Byte>, copied: nat) returns (plen: U32)
      requires InBuffer(size) && user != Buffer && C + HEADER <= size
      requires var n := HeaderAt(Image(size), C + 4).caplen;
               Fits(size, C, n) && copied + BPF_HDR + n <= user.Length
      modifies user, this`C, this`Free
      ensures plen == HeaderAt(Image(size), old(C) + 4).caplen
      ensures user[..] == Blit(old(user[..]), copied, RecordBytes(Image(size), old(C), plen))
      ensures C == Next(size, old(C), plen) && Free == old(Free) + Increment(size, old(C), plen)
    {
      hide Blit, HeaderAt, PayloadBytes;
      ghost var s, c := Image(size), C;
      plen := HeaderAt(Image(size), C + 4).caplen;
      BlitJoin(user[..], copied, s[c + 4..c + HEADER], PayloadBytes(s, PayloadStart(size, c), plen));
      MoveOut(size, C + 4, BPF_HDR, user, copied);
      C := C + HEADER;
      if C == size {
        C := 0;
      }
      TakePayload(size, plen, user, copied + BPF_HDR);
      var increment := plen + HEADER;
      if size - C < HEADER {
        increment := increment + (size - C);
        C := 0;
      }
      Free := Free + increment;
    }
  }

  /** `n` bytes from `at` on, round the end if need be. */
  function PayloadBytes(s: seq<Byte>, at: nat, n: nat): (b: seq<Byte>)
    requires at < |s| && n <= |s|
    ensures |b| == n
  {
    if |s| - at < n then s[at..] + s[0..n - (|s| - at)] else s[at..at + n]
  }

  /** What the reader hands out for the record at `at`: its bpf header and its payload. */
  function RecordBytes(s: seq<Byte>, at: nat, n: nat): (b: seq<Byte>)
    requires Fits(|s|, at, n)
    ensures |b| == BPF_HDR + n
  {
    s[at + 4..at + HEADER] + PayloadBytes(s, PayloadStart(|s|, at), n)
  }

  lemma PayloadByte(s: seq<Byte>, at: nat, n: nat, x: nat)
    requires Fits(|s|, at, n) && x < n
    ensures PayloadBytes(s, PayloadStart(|s|, at), n)[x] == Nth(s, at, HEADER + x)
  {
    var p := PayloadStart(|s|, at);
    if |s| - p < n {
      assert s[p..][..|s| - p] == s[p..];
      if x >= |s| - p {
        assert s[0..n - (|s| - p)][x - (|s| - p)] == s[x - (|s| - p)];
      }
    }
  }

  lemma PayloadBytesOf(s: seq<Byte>, at: nat, e: Entry)
    requires Holds(s, at, e)
    ensures PayloadBytes(s, PayloadStart(|s|, at), |e.pkt.data|) == e.pkt.data
  {
    hide HeaderAt, U32At, PayloadBytes, PayloadStart, Nth;
    var n := |e.pkt.data|;
    assert PayloadStart(|s|, at) < |s| && n <= |s| by {
      StartsInside(|s|, at, n);
    }
    forall x | 0 <= x < n
      ensures PayloadBytes(s, PayloadStart(|s|, at), n)[x] == e.pkt.data[x]
    {
      PayloadByte(s, at, n, x);
    }
  }

  lemma StartsInside(size: nat, at: nat, n: nat)
    requires Fits(size, at, n)
    ensures PayloadStart(size, at) < size && n <= size
  {
  }

  lemma HeaderBytesOf(b: seq<Byte>, s: seq<Byte>, at: nat)
    requires at + BPF_HDR <= |s| && BPF_HDR <= |b| && b[..BPF_HDR] == s[at..at + BPF_HDR]
    ensures HeaderAt(b, 0) == HeaderAt(s, at)
  {
    hide HeaderAt;
    HeaderFrame(s, at);
    HeaderFrame(b, 0);
    assert b[0..0 + BPF_HDR] == b[..BPF_HDR];
  }

  /** For a record that lies there, these are the packet's header and data. */
  lemma RecordBytesOf(s: seq<Byte>, at: nat, e: Entry)
    requires Holds(s, at, e)
    ensures var b := RecordBytes(s, at, |e.pkt.data|);
            HeaderAt(b, 0) == e.pkt.hdr && b[BPF_HDR..] == e.pkt.data
  {
    hide HeaderAt, U32At, PayloadBytes, Nth;
    PayloadBytesOf(s, at, e);
    var b := RecordBytes(s, at, |e.pkt.data|);
    assert b[..BPF_HDR] == s[at + 4..at + 4 + BPF_HDR];
    HeaderBytesOf(b, s, at + 4);
  }

  lemma BlitJoin(u: seq<Byte>, at: nat, a: seq<Byte>, b: seq<Byte>)
    requires at + |a| + |b| <= |u|
    ensures Blit(Blit(u, at, a), at + |a|, b) == Blit(u, at, a + b)
  {
  }

  // ---------------------------------------------------------------- the deferred copy

  lemma FrontStored(s: seq<Byte>, p: nat, front: seq<Byte>, n: nat)
    requires Fits(|s|, p, n) && |front| <= n
    ensures FrontIn(s, WrapWrite(s, PayloadStart(|s|, p), front), p, front, n)
  {
    var t := WrapWrite(s, PayloadStart(|s|, p), front);
    forall x | 0 <= x < |front|
      ensures Nth(t, p, HEADER + x) == front[x]
    {
      WrapWriteNth(s, PayloadStart(|s|, p), front, x);
    }
  }

  lemma LengthsStored(s: seq<Byte>, t: seq<Byte>, p: nat, front: seq<Byte>, n: U32, datalen: U32)
    requires FrontIn(s, t, p, front, n)
    ensures LengthsIn(s, Blit(t, p + 12, LengthBytes(n, datalen, BPF_HDR)), p, front, n, datalen)
  {
    hide LengthBytes;
    var u := Blit(t, p + 12, LengthBytes(n, datalen, BPF_HDR));
    SubSlice(t, p, HEADER, 22, HEADER);
    SubSlice(s, p, HEADER, 22, HEADER);
    forall x | HEADER + n <= x < |s|
      ensures Nth(s, p, x) == Nth(u, p, x)
    {
      assert Nth(s, p, x) == Nth(t, p, x);
    }
    forall x | 0 <= x < |front|
      ensures Nth(u, p, HEADER + x) == front[x]
    {
      assert Nth(t, p, HEADER + x) == front[x];
    }
    assert u[p + 12..p + 22] == LengthBytes(n, datalen, BPF_HDR);
    assert u[p + 22..p + HEADER] == t[p + 22..p + HEADER];
  }

  /**
   The deferred path ends in the same image as the direct one: what the tap stores ahead of the
   record is overwritten or untouched.
  */
  lemma CopyPathsAgree(
      s: seq<Byte>, t: seq<Byte>, p: nat, front: seq<Byte>, rest: seq<Byte>, datalen: U32, sn: U32, h: BpfHdr)
    requires |front| + |rest| < TWO32 && LengthsIn(s, t, p, front, |front| + |rest|, datalen)
    ensures RecordImage(t, p, sn, h, front + rest) == RecordImage(s, p, sn, h, front + rest)
  {
    RecordForgets(s, t, p, sn, h, front + rest);
  }

  lemma FrontWithin(s: seq<Byte>, t: seq<Byte>, p: nat, front: seq<Byte>, n: nat)
    requires FrontIn(s, t, p, front, n)
    ensures OnlyWithin(s, t, p, HEADER + n)
  {
  }

  lemma LengthsWithin(s: seq<Byte>, t: seq<Byte>, p: nat, front: seq<Byte>, n: U32, datalen: U32)
    requires LengthsIn(s, t, p, front, n, datalen)
    ensures OnlyWithin(s, t, p, HEADER + n) && (|front| < n ==> HalfStored(t, p, front, n, datalen))
  {
  }

  /** The bytes NDIS fills belong to the record. */
  lemma RestWithin(s: seq<Byte>, t: seq<Byte>, cs: seq<Copy>, p: nat, front: nat, rest: nat)
    requires Fits(|s|, p, front + rest)
    requires StepByStep(s, t, cs, Fold(|s|, PayloadStart(|s|, p) + front), rest)
    ensures StepByStep(s, t, cs, p, HEADER + front + rest)
  {
    hide StepByStep;
    MovesWithin(s, t, cs, PayloadStart(|s|, p), front, rest, front + rest);
    MovesWithin(s, t, cs, p, HEADER, front + rest, HEADER + front + rest);
  }

  /** The image once the rest has arrived and the stamp is written. */
  function Stamped(s: seq<Byte>, p: nat, front: nat, rest: seq<Byte>, sn: U32, sec: U32, usec: U32): seq<Byte>
    requires Fits(|s|, p, front + |rest|)
  {
    Blit(WrapWrite(s, Fold(|s|, PayloadStart(|s|, p) + front), rest), p, StampBytes(sn, sec, usec))
  }

  lemma RestImage(
      s: seq<Byte>, p: nat, front: seq<Byte>, rest: seq<Byte>, datalen: U32, sn: U32, sec: U32, usec: U32)
    requires |front| + |rest| < TWO32
    requires HalfStored(s, p, front, |front| + |rest|, datalen)
    ensures var h := BpfHdr(sec, usec, |front| + |rest|, datalen, BPF_HDR);
            Stamped(s, p, |front|, rest, sn, sec, usec) == RecordImage(s, p, sn, h, front + rest)
  {
    var h := BpfHdr(sec, usec, |front| + |rest|, datalen, BPF_HDR);
    var t := Stamped(s, p, |front|, rest, sn, sec, usec);
    var u := RecordImage(s, p, sn, h, front + rest);
    forall i | 0 <= i < |s|
      ensures t[i] == u[i]
    {
      hide HalfStored, Stamped, RecordImage;
      assert Distance(|s|, p, i) < |s|;
      RestByte(s, p, front, rest, datalen, sn, sec, usec, i);
    }
  }

  /** Byte `i` of the record, by its distance from the start: stamp, lengths, padding, front, rest, or beyond. */
  lemma RestByte(
      s: seq<Byte>, p: nat, front: seq<Byte>, rest: seq<Byte>, datalen: U32, sn: U32, sec: U32, usec: U32, i: nat)
    requires |front| + |rest| < TWO32 && i < |s|
    requires HalfStored(s, p, front, |front| + |rest|, datalen)
    ensures var h := BpfHdr(sec, usec, |front| + |rest|, datalen, BPF_HDR);
            Stamped(s, p, |front|, rest, sn, sec, usec)[i] == RecordImage(s, p, sn, h, front + rest)[i]
  {
    hide StampBytes, LengthBytes, Blit, WrapWrite;
    var h := BpfHdr(sec, usec, |front| + |rest|, datalen, BPF_HDR);
    var off := Fold(|s|, PayloadStart(|s|, p) + |front|);
    var w, b := WrapWrite(s, off, rest), HeaderBytes(sn, h, s[p + 22..p + HEADER]);
    BlitAt(w, p, StampBytes(sn, sec, usec), i);
    WrapWriteAt(s, off, rest, i);
    WrapWriteAt(s, p, b + (front + rest), i);
    var x := Distance(|s|, p, i);
    if HEADER <= x < HEADER + |front| {
      assert Nth(s, p, HEADER + (x - HEADER)) == front[x - HEADER];
    } else if 12 <= x < 22 {
      assert s[i] == s[p + 12..p + 22][x - 12];
    }
  }

  /** The rest and the stamp turn what the tap left behind into the record. */
  lemma RestCompletes(
      s: seq<Byte>, p: nat, front: seq<Byte>, rest: seq<Byte>, datalen: U32, sn: U32, sec: U32, usec: U32)
    requires |front| + |rest| < TWO32
    requires HalfStored(s, p, front, |front| + |rest|, datalen)
    ensures var h := BpfHdr(sec, usec, |front| + |rest|, datalen, BPF_HDR);
            var t := Blit(WrapWrite(s, Fold(|s|, PayloadStart(|s|, p) + |front|), rest), p, StampBytes(sn, sec, usec));
            t == RecordImage(s, p, sn, h, front + rest) && HeaderAt(t, p + 4) == h
  {
    hide StampBytes, HeaderAt, Blit, WrapWrite, RecordImage;
    RestImage(s, p, front, rest, datalen, sn, sec, usec);
    RecordHeader(s, p, sn, BpfHdr(sec, usec, |front| + |rest|, datalen, BPF_HDR), front + rest);
  }

  lemma RecordHeader(s: seq<Byte>, p: nat, sn: U32, h: BpfHdr, data: seq<Byte>)
    requires Fits(|s|, p, |data|)
    ensures HeaderAt(RecordImage(s, p, sn, h, data), p + 4) == h
  {
    hide HeaderBytes, HeaderAt;
    var t, pad := RecordImage(s, p, sn, h, data), s[p + 22..p + HEADER];
    assert t[p..p + HEADER] == HeaderBytes(sn, h, pad);
    HeaderReadsBack(t, p, sn, h, pad);
  }
}
