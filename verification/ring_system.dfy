/**
 The capture rings of one open instance as a transition system: one producer per CPU (the packet
 tap, or a pending NdisTransferData), one reader that takes no lock, interleaved at the level of
 single accesses to shared memory. A `History` records the packets
 accepted in sequence-number order, the CPU of each, and what the reader handed out.
*/
module RingSystem {
  import opened Machine
  import opened RingImage

  /** What a CPU's producer is doing between its admission test and its update of `Free`. */
  datatype Producer =
    | Idle
    | Reserved(datalen: U32, data: seq<Byte>)
    | Numbered(e: Entry)

  datatype Counters = Counters(received: nat, accepted: nat, dropped: nat, rejected: nat)

  /** `filtering` counts the packets received that the filter has not decided on yet. */
  datatype Ring = Ring(
    img: seq<Byte>, P: nat, C: nat, free: int, q: seq<Entry>, prod: Producer, counters: Counters, filtering: nat)

  datatype Reader =
    | Scanning
    | Copying(hdr: BpfHdr, got: seq<Byte>)

  datatype History = History(log: seq<Packet>, owner: seq<nat>, delivered: seq<Packet>)

  datatype System = System(
    size: nat, rings: seq<Ring>,
    writerSN: U32, readerSN: U32,
    reader: Reader, current: nat, count: nat,
    hist: History)

  datatype Step =
    | Receive(cpu: nat)                            // Received++, the packet goes to the filter
    | Reject(cpu: nat)                             // the filter returns 0
    | Drop(cpu: nat, n: nat)                       // no room, or a transfer is pending
    | Admit(cpu: nat, datalen: U32, data: seq<Byte>)
    | Write(cpu: nat, img: seq<Byte>)              // any stores into the reserved bytes
    | Abandon(cpu: nat)                            // no MDL or no NDIS packet: the packet is dropped
    | Assign(cpu: nat, sec: U32, usec: U32)        // time stamp and InterlockedIncrement(WriterSN)
    | Publish(cpu: nat)                            // InterlockedExchangeAdd(Free, -increment)
    | Miss                                         // the reader moves on to the next CPU
    | Start                                        // the head of the current ring carries ReaderSN
    | ReadByte
    | Release                                      // C, ReaderSN++, InterlockedExchangeAdd(Free, increment)
    | EndRead                                      // the read call returns; the next one starts at CPU 0

  // ---------------------------------------------------------------- transitions

  function Reservation(p: Producer): nat
    requires !p.Idle?
  {
    HEADER + if p.Reserved? then |p.data| else |p.e.pkt.data|
  }

  /** The test of the reader's loop: the ring is not empty and its head carries ReaderSN. */
  predicate Hit(s: System, i: nat)
    requires i < |s.rings|
  {
    var r := s.rings[i];
    r.free < s.size && r.C + HEADER <= |r.img| && U32At(r.img, r.C) == s.readerSN
  }

  /** The admission test: room for payload and header, and no transfer pending. */
  predicate Takes(r: Ring, n: nat) {
    r.prod.Idle? && n + HEADER <= r.free
  }

  predicate Refuses(r: Ring, n: nat) {
    n + HEADER > r.free || !r.prod.Idle?
  }

  ghost predicate Enabled(s: System, step: Step) {
    match step
    case Receive(i) => i < |s.rings|
    case Reject(i) => i < |s.rings| && s.rings[i].filtering > 0
    case Drop(i, n) => i < |s.rings| && s.rings[i].filtering > 0 && Refuses(s.rings[i], n)
    case Admit(i, _, data) => i < |s.rings| && s.rings[i].filtering > 0 && Takes(s.rings[i], |data|)
    case Write(i, img) =>
      && i < |s.rings| && !s.rings[i].prod.Idle?
      && OnlyWithin(s.rings[i].img, img, s.rings[i].P, Reservation(s.rings[i].prod))
    case Abandon(i) => i < |s.rings| && s.rings[i].prod.Reserved?
    case Assign(i, _, _) =>
      i < |s.rings| && s.rings[i].prod.Reserved? && |s.rings[i].prod.data| < TWO32
    case Publish(i) =>
      && i < |s.rings| && s.rings[i].prod.Numbered?
      && Holds(s.rings[i].img, s.rings[i].P, s.rings[i].prod.e)
    case Miss =>
      s.reader.Scanning? && s.count < |s.rings| && s.current < |s.rings| && !Hit(s, s.current)
    case Start =>
      s.reader.Scanning? && s.count < |s.rings| && s.current < |s.rings| && Hit(s, s.current)
    case ReadByte =>
      && s.reader.Copying? && |s.reader.got| < s.reader.hdr.caplen && s.current < |s.rings|
      && HEADER + |s.reader.got| < |s.rings[s.current].img| && s.rings[s.current].C < |s.rings[s.current].img|
    case Release =>
      && s.reader.Copying? && |s.reader.got| == s.reader.hdr.caplen && s.current < |s.rings|
      && Fits(|s.rings[s.current].img|, s.rings[s.current].C, s.reader.hdr.caplen)
      && |s.rings[s.current].q| > 0
    case EndRead => s.reader.Scanning?
  }

  /** The bpf header the tap fills in. */
  function TapHeader(sec: U32, usec: U32, caplen: U32, datalen: U32): BpfHdr {
    BpfHdr(sec, usec, caplen, datalen, BPF_HDR)
  }

  function Counted(r: Ring, received: nat, accepted: nat, dropped: nat, rejected: nat): Ring {
    var c := r.counters;
    r.(counters := Counters(c.received + received, c.accepted + accepted, c.dropped + dropped, c.rejected + rejected))
  }

  function Received(r: Ring): Ring {
    Counted(r, 1, 0, 0, 0).(filtering := r.filtering + 1)
  }

  /** The filter has come to a verdict. */
  function Decided(r: Ring): Ring
    requires r.filtering > 0
  {
    r.(filtering := r.filtering - 1)
  }

  ghost function Apply(s: System, step: Step): System
    requires Enabled(s, step)
  {
    match step
    case Receive(i) => s.(rings := s.rings[i := Received(s.rings[i])])
    case Reject(i) => s.(rings := s.rings[i := Decided(Counted(s.rings[i], 0, 0, 0, 1))])
    case Drop(i, _) => s.(rings := s.rings[i := Decided(Counted(s.rings[i], 0, 0, 1, 0))])
    case Admit(i, datalen, data) =>
      s.(rings := s.rings[i := Decided(s.rings[i]).(prod := Reserved(datalen, data))])
    case Write(i, img) => s.(rings := s.rings[i := s.rings[i].(img := img)])
    case Abandon(i) => s.(rings := s.rings[i := Counted(s.rings[i], 0, 0, 1, 0).(prod := Idle)])
    case Assign(i, sec, usec) =>
      var r := s.rings[i];
      var pkt := Packet(TapHeader(sec, usec, |r.prod.data|, r.prod.datalen), r.prod.data);
      s.(rings := s.rings[i := Counted(r, 0, 1, 0, 0).(prod := Numbered(Entry(|s.hist.log|, pkt)))],
         writerSN := (s.writerSN + 1) % TWO32, hist := s.hist.(log := s.hist.log + [pkt], owner := s.hist.owner + [i]))
    case Publish(i) =>
      var r := s.rings[i];
      var n := |r.prod.e.pkt.data|;
      s.(rings := s.rings[i := r.(P := Next(|r.img|, r.P, n), free := r.free - Increment(|r.img|, r.P, n),
                                  q := r.q + [r.prod.e], prod := Idle)])
    case Miss => s.(current := (s.current + 1) % |s.rings|, count := s.count + 1)
    case Start =>
      s.(reader := Copying(HeaderAt(s.rings[s.current].img, s.rings[s.current].C + 4), []))
    case ReadByte =>
      var r := s.rings[s.current];
      s.(reader := s.reader.(got := s.reader.got + [Nth(r.img, r.C, HEADER + |s.reader.got|)]))
    case Release =>
      var r := s.rings[s.current];
      var n := s.reader.hdr.caplen;
      var r' := r.(C := Next(|r.img|, r.C, n), free := r.free + Increment(|r.img|, r.C, n), q := r.q[1..]);
      s.(rings := s.rings[s.current := r'],
         readerSN := (s.readerSN + 1) % TWO32, reader := Scanning, count := 0,
         hist := s.hist.(delivered := s.hist.delivered + [Packet(s.reader.hdr, s.reader.got)]))
    case EndRead => s.(current := 0, count := 0)
  }

  /** Bytes in `n` rings of `size` bytes. */
  function Capacity(n: nat, size: nat): nat {
    if n == 0 then 0 else size + Capacity(n - 1, size)
  }

  /** A fresh or just reset instance: every ring empty, both sequence numbers 0. */
  ghost predicate Init(s: System) {
    && HEADER <= s.size && |s.rings| > 0 && Capacity(|s.rings|, s.size) < TWO32
    && s.writerSN == 0 && s.readerSN == 0 && s.reader == Scanning && s.current == 0 && s.count == 0
    && s.hist == History([], [], [])
    && forall i :: 0 <= i < |s.rings| ==> FreshRing(s.size, s.rings[i])
  }

  ghost predicate FreshRing(size: nat, r: Ring) {
    && |r.img| == size && r.P == 0 && r.C == 0 && r.free == size && r.q == [] && r.prod == Idle
    && r.counters == Counters(0, 0, 0, 0) && r.filtering == 0
  }

  // ---------------------------------------------------------------- invariant

  /** Packets counted as received that are in the filter, or wait for their transfer. */
  function Undecided(r: Ring): nat {
    r.filtering + if r.prod.Reserved? then 1 else 0
  }

  ghost predicate RingOk(size: nat, r: Ring) {
    && |r.img| == size
    && RingInv(r.img, r.C, r.P, r.free, r.q)
    && (!r.prod.Idle? ==> Reservation(r.prod) <= r.free)
    && r.counters.received
       == r.counters.accepted + r.counters.dropped + r.counters.rejected + Undecided(r)
  }

  ghost predicate AllRings(size: nat, rings: seq<Ring>) {
    forall i :: 0 <= i < |rings| ==> RingOk(size, rings[i])
  }

  /** `e` is the logged packet of its sequence number, accepted on CPU `i`, not yet delivered. */
  ghost predicate Tracked(h: History, i: nat, e: Entry) {
    && |h.delivered| <= e.idx < |h.log| && |h.owner| == |h.log|
    && h.log[e.idx] == e.pkt && h.owner[e.idx] == i
  }

  ghost predicate AllTracked(h: History, i: nat, q: seq<Entry>) {
    forall k :: 0 <= k < |q| ==> Tracked(h, i, q[k])
  }

  ghost predicate Ascending(q: seq<Entry>) {
    forall k, l :: 0 <= k < l < |q| ==> q[k].idx < q[l].idx
  }

  /** The records CPU `i` still has to hand over, its numbered one last. */
  function Pending(r: Ring): seq<Entry> {
    r.q + if r.prod.Numbered? then [r.prod.e] else []
  }

  ghost predicate QueueOk(h: History, i: nat, r: Ring) {
    AllTracked(h, i, Pending(r)) && Ascending(Pending(r))
  }

  ghost predicate AllQueues(h: History, rings: seq<Ring>) {
    forall i :: 0 <= i < |rings| ==> QueueOk(h, i, rings[i])
  }

  /** Sequence number `n` is queued in `r`, or held by its producer. */
  ghost predicate Present(r: Ring, n: nat) {
    exists k :: 0 <= k < |Pending(r)| && Pending(r)[k].idx == n
  }

  ghost predicate Covered(h: History, rings: seq<Ring>, n: nat) {
    n < |h.owner| && h.owner[n] < |rings| && Present(rings[h.owner[n]], n)
  }

  ghost predicate AllCovered(h: History, rings: seq<Ring>) {
    forall n :: |h.delivered| <= n < |h.log| ==> Covered(h, rings, n)
  }

  function Held(r: Ring): nat {
    |Pending(r)|
  }

  function Accepted(r: Ring): nat {
    r.counters.accepted
  }

  function Total(f: Ring -> nat, rings: seq<Ring>): nat {
    if |rings| == 0 then 0 else f(rings[0]) + Total(f, rings[1..])
  }

  ghost predicate ReaderOk(s: System) {
    s.reader.Copying? ==>
      && s.current < |s.rings| && |s.rings[s.current].q| > 0
      && var e := s.rings[s.current].q[0];
         && e.idx == |s.hist.delivered| && s.reader.hdr == e.pkt.hdr
         && |s.reader.got| <= |e.pkt.data| && s.reader.got == e.pkt.data[..|s.reader.got|]
  }

  ghost predicate HistoryOk(s: System) {
    && |s.hist.owner| == |s.hist.log| && |s.hist.delivered| <= |s.hist.log|
    && s.hist.delivered == s.hist.log[..|s.hist.delivered|]
    && s.writerSN == |s.hist.log| % TWO32 && s.readerSN == |s.hist.delivered| % TWO32
    && |s.hist.log| - |s.hist.delivered| == Total(Held, s.rings)
    && |s.hist.log| == Total(Accepted, s.rings)
  }

  ghost predicate Inv(s: System) {
    && |s.rings| > 0 && Capacity(|s.rings|, s.size) < TWO32 && s.current < |s.rings|
    && AllRings(s.size, s.rings) && AllQueues(s.hist, s.rings) && AllCovered(s.hist, s.rings)
    && HistoryOk(s) && ReaderOk(s)
  }

  // ---------------------------------------------------------------- sums over the rings

  lemma {:induction false} TotalUpdate(f: Ring -> nat, rings: seq<Ring>, i: nat, r: Ring)
    requires i < |rings|
    ensures Total(f, rings[i := r]) == Total(f, rings) - f(rings[i]) + f(r)
  {
    if i > 0 {
      TotalUpdate(f, rings[1..], i - 1, r);
      assert rings[i := r][1..] == rings[1..][i - 1 := r];
    } else {
      assert rings[i := r][1..] == rings[1..];
    }
  }

  lemma {:induction false} TotalZero(f: Ring -> nat, rings: seq<Ring>)
    requires forall i :: 0 <= i < |rings| ==> f(rings[i]) == 0
    ensures Total(f, rings) == 0
  {
    if |rings| > 0 {
      TotalZero(f, rings[1..]);
    }
  }

  /** Every record, and every reservation, takes at least a header. */
  lemma HeldFitsOne(r: Ring, size: nat)
    requires RingOk(size, r)
    ensures Held(r) <= size
  {
    hide Chain, Congruent;
    assert |r.q| * HEADER <= Span(|r.img|, r.C, r.q);
  }

  /** So the rings never hold 2^32 packets between them. */
  lemma {:induction false} HeldFits(rings: seq<Ring>, size: nat)
    requires AllRings(size, rings)
    ensures Total(Held, rings) <= Capacity(|rings|, size)
  {
    hide RingOk, Held;
    if |rings| > 0 {
      HeldFitsOne(rings[0], size);
      HeldFits(rings[1..], size);
    }
  }

  /** The stored 32-bit number is ReaderSN only for the very next packet, however often it wrapped. */
  lemma SnIdentifies(s: System, i: nat, e: Entry)
    requires Inv(s) && Tracked(s.hist, i, e)
    ensures e.idx % TWO32 == s.readerSN <==> e.idx == |s.hist.delivered|
  {
    HeldFits(s.rings, s.size);
    LowBitsIdentify(|s.hist.delivered|, e.idx);
  }

  /** The reader hits exactly the ring whose first record is the next packet to deliver. */
  lemma HitMeansNext(s: System, i: nat)
    requires Inv(s) && i < |s.rings|
    ensures Hit(s, i) <==> |s.rings[i].q| > 0 && s.rings[i].q[0].idx == |s.hist.delivered|
    ensures Hit(s, i) ==>
              && s.rings[i].C + HEADER <= |s.rings[i].img|
              && HeaderAt(s.rings[i].img, s.rings[i].C + 4) == s.rings[i].q[0].pkt.hdr
  {
    var r := s.rings[i];
    assert RingOk(s.size, r) && QueueOk(s.hist, i, r);
    FreeIsDistance(r.img, r.C, r.P, r.free, r.q);
    if |r.q| > 0 {
      ReleaseKeeps(r.img, r.C, r.P, r.free, r.q);
      assert Pending(r)[0] == r.q[0];
      SnIdentifies(s, i, r.q[0]);
    }
  }
}
