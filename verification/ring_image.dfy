/**
 One per-CPU capture ring seen as a sequence of bytes: where a record lies, where the next one
 starts, what the skipped tail costs, and the chain of records between the consumer and producer
 offsets. Everything here is a function of values; the classes and the step model are proved
 against it.
*/
module RingImage {
  import opened Machine

  /** sizeof(struct bpf_hdr): time stamp (8), caplen (4), datalen (4), hdrlen (2), padding (2). */
  const BPF_HDR: nat := 20
  /** sizeof(struct PacketHeader): the sequence number, then the bpf header. */
  const HEADER: nat := 24

  datatype BpfHdr = BpfHdr(sec: U32, usec: U32, caplen: U32, datalen: U32, hdrlen: U16)

  datatype Packet = Packet(hdr: BpfHdr, data: seq<Byte>)

  /** A packet with its position in the global order of acceptance, of which the ring stores the low 32 bits. */
  datatype Entry = Entry(idx: nat, pkt: Packet)

  // ---------------------------------------------------------------- offsets

  function Fold(size: nat, x: nat): nat
    requires x < 2 * size
  {
    if x < size then x else x - size
  }

  /** The byte `x` places after offset `at`, going round the ring. */
  function Nth(s: seq<Byte>, at: nat, x: nat): Byte
    requires at < |s| && x < |s|
  {
    s[Fold(|s|, at + x)]
  }

  predicate Fits(size: nat, at: nat, n: nat) {
    at + HEADER <= size && HEADER + n <= size
  }

  /** Where the payload starts: right after the header, or at 0 if the header ends the ring. */
  function PayloadStart(size: nat, at: nat): (p: nat)
    requires at + HEADER <= size
  {
    if at + HEADER == size then 0 else at + HEADER
  }

  /** The offset just past the payload, which may be `size` itself. */
  function PayloadEnd(size: nat, at: nat, n: nat): (e: nat)
    requires Fits(size, at, n)
    ensures e <= size
  {
    var p := PayloadStart(size, at);
    if size - p < n then n - (size - p) else p + n
  }

  /** Tail bytes too few to hold another header; both sides skip them. */
  function Skip(size: nat, at: nat, n: nat): (k: nat)
    requires Fits(size, at, n)
  {
    var e := PayloadEnd(size, at, n);
    if size - e < HEADER then size - e else 0
  }

  function Increment(size: nat, at: nat, n: nat): (inc: nat)
    requires Fits(size, at, n)
  {
    n + HEADER + Skip(size, at, n)
  }

  function Next(size: nat, at: nat, n: nat): (p: nat)
    requires Fits(size, at, n)
  {
    var e := PayloadEnd(size, at, n);
    if size - e < HEADER then 0 else e
  }

  /** `a` and `b` are the same place of the ring. */
  predicate Congruent(size: nat, a: nat, b: nat) {
    a == b || a == b + size
  }

  /** The next record starts exactly one increment further round, with room for a whole header. */
  lemma NextIsCongruent(size: nat, at: nat, n: nat)
    requires Fits(size, at, n)
    ensures Next(size, at, n) + HEADER <= size
    ensures Congruent(size, at + Increment(size, at, n), Next(size, at, n))
    ensures Increment(size, at, n) <= size
  {
  }

  /** Exactly where that is: behind the bytes of the record, unless too few are left there for a header. */
  lemma NextIsExact(size: nat, at: nat, n: nat)
    requires Fits(size, at, n)
    ensures var e := (at + HEADER + n) % size;
            && Next(size, at, n) == (if e + HEADER <= size then e else 0)
            && Increment(size, at, n) == HEADER + n + (if e + HEADER <= size then 0 else size - e)
  {
    FoldIsModulo(size, at + HEADER + n);
    NextIsFolded(size, at, n);
  }

  lemma NextIsFolded(size: nat, at: nat, n: nat)
    requires Fits(size, at, n)
    ensures var e := Fold(size, at + HEADER + n);
            && Next(size, at, n) == (if e + HEADER <= size then e else 0)
            && Increment(size, at, n) == HEADER + n + (if e + HEADER <= size then 0 else size - e)
  {
  }

  lemma FoldIsModulo(size: nat, x: nat)
    requires x < 2 * size
    ensures x % size == Fold(size, x)
  {
    if x < size {
      assert x / size == 0;
    } else {
      assert x == size * 1 + (x - size);
      assert x / size == 1;
    }
  }

  /**
   The admission test counts only payload and header, yet the tail the producer then skips is
   always free as well, because the consumer never stands inside such a tail.
  */
  lemma SkipIsFree(size: nat, p: nat, c: nat, free: nat, n: nat)
    requires p + HEADER <= size && c + HEADER <= size
    requires free <= size && Congruent(size, p + free, c)
    requires n + HEADER <= free
    ensures Fits(size, p, n) && Increment(size, p, n) <= free
  {
  }

  // ---------------------------------------------------------------- records

  function HeaderAt(s: seq<Byte>, at: nat): BpfHdr
    requires at + BPF_HDR <= |s|
  {
    BpfHdr(U32At(s, at), U32At(s, at + 4), U32At(s, at + 8), U32At(s, at + 12), U16At(s, at + 16))
  }

  /** A header means the same wherever its bytes are. */
  lemma HeaderFrame(s: seq<Byte>, at: nat)
    requires at + BPF_HDR <= |s|
    ensures HeaderAt(s[at..at + BPF_HDR], 0) == HeaderAt(s, at)
  {
  }

  /** The record for `e` lies at `at`: header in one piece, payload possibly round the end. */
  ghost predicate Holds(s: seq<Byte>, at: nat, e: Entry) {
    && Fits(|s|, at, |e.pkt.data|)
    && e.pkt.hdr.caplen == |e.pkt.data|
    && U32At(s, at) == e.idx % TWO32
    && HeaderAt(s, at + 4) == e.pkt.hdr
    && forall x :: 0 <= x < |e.pkt.data| ==> Nth(s, at, HEADER + x) == e.pkt.data[x]
  }

  ghost predicate SizesFit(size: nat, at: nat, q: seq<Entry>)
    decreases |q|
  {
    |q| > 0 ==>
      Fits(size, at, |q[0].pkt.data|) && SizesFit(size, Next(size, at, |q[0].pkt.data|), q[1..])
  }

  /** Bytes taken by the records of `q` laid out from `at`, skipped tails included. */
  ghost function Span(size: nat, at: nat, q: seq<Entry>): (n: nat)
    requires SizesFit(size, at, q)
    ensures |q| * HEADER <= n
    decreases |q|
  {
    if |q| == 0 then 0
    else
      var n := |q[0].pkt.data|;
      Increment(size, at, n) + Span(size, Next(size, at, n), q[1..])
  }

  /** The records of `q` follow one another from `at`. */
  ghost predicate Chain(s: seq<Byte>, at: nat, q: seq<Entry>)
    ensures Chain(s, at, q) ==> SizesFit(|s|, at, q)
    decreases |q|
  {
    |q| > 0 ==> Holds(s, at, q[0]) && Chain(s, Next(|s|, at, |q[0].pkt.data|), q[1..])
  }

  /** The two images have the same `len` bytes from `at` on. */
  ghost predicate SameBytes(s: seq<Byte>, t: seq<Byte>, at: nat, len: nat) {
    && |s| == |t| && at < |s| && len <= |s|
    && forall x :: 0 <= x < len ==> Nth(s, at, x) == Nth(t, at, x)
  }

  lemma HoldsFrame(s: seq<Byte>, t: seq<Byte>, at: nat, e: Entry)
    requires Holds(s, at, e)
    requires SameBytes(s, t, at, HEADER + |e.pkt.data|)
    ensures Holds(t, at, e)
  {
    forall y | at <= y < at + HEADER
      ensures s[y] == t[y]
    {
      assert Nth(s, at, y - at) == Nth(t, at, y - at);
    }
    forall x | 0 <= x < |e.pkt.data|
      ensures Nth(t, at, HEADER + x) == e.pkt.data[x]
    {
      assert Nth(s, at, HEADER + x) == Nth(t, at, HEADER + x);
    }
  }

  lemma SameBytesTail(s: seq<Byte>, t: seq<Byte>, at: nat, len: nat, inc: nat, at': nat)
    requires SameBytes(s, t, at, len) && inc <= len
    requires at' < |s| && Congruent(|s|, at + inc, at')
    ensures SameBytes(s, t, at', len - inc)
  {
    forall x | 0 <= x < len - inc
      ensures Nth(s, at', x) == Nth(t, at', x)
    {
      assert Nth(s, at, inc + x) == Nth(t, at, inc + x);
    }
  }

  lemma {:induction false} ChainFrame(s: seq<Byte>, t: seq<Byte>, at: nat, q: seq<Entry>)
    requires Chain(s, at, q) && at < |s|
    requires Span(|s|, at, q) <= |s|
    requires SameBytes(s, t, at, Span(|s|, at, q))
    ensures Chain(t, at, q)
    decreases |q|
  {
    if |q| > 0 {
      var n := |q[0].pkt.data|;
      NextIsCongruent(|s|, at, n);
      HoldsFrame(s, t, at, q[0]);
      SameBytesTail(s, t, at, Span(|s|, at, q), Increment(|s|, at, n), Next(|s|, at, n));
      ChainFrame(s, t, Next(|s|, at, n), q[1..]);
    }
  }

  lemma ChainHead(s: seq<Byte>, at: nat, q: seq<Entry>)
    requires q != []
    ensures Chain(s, at, q) <==> Holds(s, at, q[0]) && Chain(s, Next(|s|, at, |q[0].pkt.data|), q[1..])
  {
  }

  lemma SpanHead(size: nat, at: nat, q: seq<Entry>)
    requires SizesFit(size, at, q) && q != []
    ensures var n := |q[0].pkt.data|;
            && Fits(size, at, n) && SizesFit(size, Next(size, at, n), q[1..])
            && Span(size, at, q) == Increment(size, at, n) + Span(size, Next(size, at, n), q[1..])
  {
  }

  lemma ChainOne(s: seq<Byte>, p: nat, e: Entry)
    requires Holds(s, p, e)
    ensures Chain(s, p, [e]) && Span(|s|, p, [e]) == Increment(|s|, p, |e.pkt.data|)
    ensures Chain(s, p, []) && Span(|s|, p, []) == 0
  {
  }

  /** The end of a record and the end of the record after it, round the ring. */
  lemma CongruentStep(size: nat, at: nat, inc: nat, next: nat, span: nat, p: nat)
    requires Congruent(size, at + inc, next) && Congruent(size, at + inc + span, p)
    requires next < size && p < size
    ensures Congruent(size, next + span, p)
  {
  }

  lemma EmptyIsHere(s: seq<Byte>, at: nat, p: nat)
    requires at < |s| && p < |s| && Congruent(|s|, at + Span(|s|, at, []), p)
    ensures at == p
  {
  }

  lemma {:induction false} ChainAppend(s: seq<Byte>, at: nat, q: seq<Entry>, p: nat, e: Entry)
    requires Chain(s, at, q) && Holds(s, p, e)
    requires at < |s| && Congruent(|s|, at + Span(|s|, at, q), p)
    ensures Chain(s, at, q + [e])
    ensures Span(|s|, at, q + [e]) == Span(|s|, at, q) + Increment(|s|, p, |e.pkt.data|)
    decreases |q|
  {
    hide Chain, Span, SizesFit, Next, Increment, Congruent;
    assert p < |s|;
    if |q| == 0 {
      EmptyIsHere(s, at, p);
      ChainOne(s, p, e);
      assert q == [] && q + [e] == [e];
    } else {
      hide Holds;
      var n := |q[0].pkt.data|;
      ChainHead(s, at, q);
      SpanHead(|s|, at, q);
      NextIsCongruent(|s|, at, n);
      var next := Next(|s|, at, n);
      CongruentStep(|s|, at, Increment(|s|, at, n), next, Span(|s|, next, q[1..]), p);
      ChainAppend(s, next, q[1..], p, e);
      assert (q + [e])[0] == q[0] && (q + [e])[1..] == q[1..] + [e];
      ChainHead(s, at, q + [e]);
      SpanHead(|s|, at, q + [e]);
    }
  }

  // ---------------------------------------------------------------- one ring

  /**
   The accounting of one ring: `c` and `p` leave room for a header, the records of `q` fill the
   bytes from `c` to `p`, and `free` is all the rest.
  */
  ghost predicate RingInv(s: seq<Byte>, c: nat, p: nat, free: int, q: seq<Entry>) {
    && 0 <= free
    && c + HEADER <= |s| && p + HEADER <= |s|
    && Chain(s, c, q)
    && Span(|s|, c, q) + free == |s|
    && Congruent(|s|, c + Span(|s|, c, q), p)
  }

  /** `Free` is the circular distance from `P` to `C`, and tells an empty ring from a full one. */
  lemma FreeIsDistance(s: seq<Byte>, c: nat, p: nat, free: int, q: seq<Entry>)
    requires RingInv(s, c, p, free, q)
    ensures 0 <= free <= |s| && Congruent(|s|, p + free, c)
    ensures free == |s| <==> q == []
    ensures p == c <==> free == 0 || free == |s|
  {
  }

  /** `t` differs from `s` at most in the `len` bytes from `p` on. */
  ghost predicate OnlyWithin(s: seq<Byte>, t: seq<Byte>, p: nat, len: nat) {
    && |s| == |t| && p < |s| && len <= |s|
    && forall x :: len <= x < |s| ==> Nth(s, p, x) == Nth(t, p, x)
  }

  /** Bytes written into free space disturb no queued record. */
  lemma WritesStayFree(s: seq<Byte>, t: seq<Byte>, c: nat, p: nat, free: int, q: seq<Entry>, len: nat)
    requires RingInv(s, c, p, free, q)
    requires len <= free && OnlyWithin(s, t, p, len)
    ensures RingInv(t, c, p, free, q)
  {
    FreeIsDistance(s, c, p, free, q);
    var span := Span(|s|, c, q);
    forall x | 0 <= x < span
      ensures Nth(s, c, x) == Nth(t, c, x)
    {
      assert Nth(s, p, free + x) == Nth(t, p, free + x);
    }
    ChainFrame(s, t, c, q);
  }

  /** Publishing a complete record at `p`. */
  lemma PublishKeeps(s: seq<Byte>, c: nat, p: nat, free: int, q: seq<Entry>, e: Entry)
    requires RingInv(s, c, p, free, q) && Holds(s, p, e)
    requires |e.pkt.data| + HEADER <= free
    ensures Increment(|s|, p, |e.pkt.data|) <= free
    ensures RingInv(s, c, Next(|s|, p, |e.pkt.data|), free - Increment(|s|, p, |e.pkt.data|), q + [e])
  {
    FreeIsDistance(s, c, p, free, q);
    SkipIsFree(|s|, p, c, free, |e.pkt.data|);
    NextIsCongruent(|s|, p, |e.pkt.data|);
    ChainAppend(s, c, q, p, e);
  }

  /**
   Consuming the first record: from `c` and the stored caplen alone the reader finds the offset
   the producer chose for the next one and gives back exactly what the producer took.
  */
  lemma ReleaseKeeps(s: seq<Byte>, c: nat, p: nat, free: int, q: seq<Entry>)
    requires RingInv(s, c, p, free, q) && free < |s|
    ensures |q| > 0 && Holds(s, c, q[0])
    ensures var n := |q[0].pkt.data|;
            && HeaderAt(s, c + 4).caplen == n && Fits(|s|, c, n)
            && RingInv(s, Next(|s|, c, n), p, free + Increment(|s|, c, n), q[1..])
  {
    NextIsCongruent(|s|, c, |q[0].pkt.data|);
  }
}
