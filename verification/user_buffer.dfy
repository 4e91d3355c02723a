/**
 The buffer a read fills for the application: each packet as a bpf header, its data, and padding up
 to the next word; and the walk an application makes over it.
*/
module UserBuffer {
  import opened Machine
  import opened RingImage
  import opened RingWrite

  /** From one packet to the next. */
  function Stride(n: nat): nat {
    BPF_HDR + WordAlign(n)
  }

  /** `b` holds exactly `pkts`, one after the other. */
  ghost predicate Packed(b: seq<Byte>, pkts: seq<Packet>)
    decreases |pkts|
  {
    if |pkts| == 0 then b == []
    else
      var n := |pkts[0].data|;
      Stride(n) <= |b| && IsPacket(b[..Stride(n)], pkts[0]) && Packed(b[Stride(n)..], pkts[1..])
  }

  ghost predicate IsPacket(b: seq<Byte>, pkt: Packet) {
    && |b| == Stride(|pkt.data|) && pkt.hdr.caplen == |pkt.data|
    && HeaderAt(b, 0) == pkt.hdr && b[BPF_HDR..BPF_HDR + |pkt.data|] == pkt.data
  }

  /** The application's walk: header, caplen bytes of data, on to the next word. */
  function Parse(b: seq<Byte>): seq<Packet> {
    if |b| < BPF_HDR then []
    else
      var n := HeaderAt(b, 0).caplen;
      if Stride(n) > |b| then []
      else [Packet(HeaderAt(b, 0), b[BPF_HDR..BPF_HDR + n])] + Parse(b[Stride(n)..])
  }

  lemma SlicePrefix(b: seq<Byte>, n: nat)
    requires BPF_HDR <= n <= |b|
    ensures HeaderAt(b[..n], 0) == HeaderAt(b, 0)
  {
  }

  /** Walking the buffer recovers the packets packed into it. */
  lemma {:induction false} ParseRecovers(b: seq<Byte>, pkts: seq<Packet>)
    requires Packed(b, pkts)
    ensures Parse(b) == pkts
    decreases |pkts|
  {
    hide HeaderAt;
    if |pkts| > 0 {
      var n := |pkts[0].data|;
      SlicePrefix(b, Stride(n));
      assert b[..Stride(n)][BPF_HDR..BPF_HDR + n] == b[BPF_HDR..BPF_HDR + n];
      ParseRecovers(b[Stride(n)..], pkts[1..]);
    }
  }

  /** One more packet at the end. */
  lemma {:induction false} PackedAppend(b: seq<Byte>, pkts: seq<Packet>, c: seq<Byte>, pkt: Packet)
    requires Packed(b, pkts) && IsPacket(c, pkt)
    ensures Packed(b + c, pkts + [pkt])
    decreases |pkts|
  {
    hide IsPacket, HeaderAt;
    if |pkts| == 0 {
      assert b + c == c && pkts + [pkt] == [pkt];
      PackedOne(c, pkt);
    } else {
      var k := Stride(|pkts[0].data|);
      assert (b + c)[..k] == b[..k] && (b + c)[k..] == b[k..] + c;
      assert (pkts + [pkt])[1..] == pkts[1..] + [pkt];
      PackedAppend(b[k..], pkts[1..], c, pkt);
    }
  }

  lemma PackedOne(c: seq<Byte>, pkt: Packet)
    requires IsPacket(c, pkt)
    ensures Packed(c, [pkt])
  {
    assert c[..|c|] == c && c[|c|..] == [];
  }

  // ---------------------------------------------------------------- the fit test

  /** Read lengths for which `copied` never passes the end: whole words, or too few bytes for any packet. */
  predicate WholeWords(length: nat) {
    length % 4 == 0 || length < BPF_HDR
  }

  lemma WordsAdd(a: nat, b: nat)
    requires a % 4 == 0 && b % 4 == 0
    ensures (a + b) % 4 == 0
  {
  }

  lemma WordsFit(a: nat, b: nat)
    requires a % 4 == 0 && b % 4 == 0 && a < b + 4
    ensures a <= b
  {
    assert a == a / 4 * 4 && b == b / 4 * 4;
  }

  /** From one packet to the next it is a whole number of words, at most three bytes longer than the packet. */
  lemma StrideIsWords(n: nat)
    ensures Stride(n) % 4 == 0 && BPF_HDR + n <= Stride(n) < BPF_HDR + n + 4
  {
    hide WordAlign;
    WordsAdd(BPF_HDR, WordAlign(n));
  }

  /** In such a buffer, what passes the fit test also leaves room for the padding. */
  lemma PaddingFits(length: nat, copied: nat, n: nat)
    requires WholeWords(length) && copied % 4 == 0 && copied + BPF_HDR + n <= length
    ensures copied + Stride(n) <= length && (copied + Stride(n)) % 4 == 0
  {
    hide Stride;
    StrideIsWords(n);
    WordsAdd(copied, Stride(n));
    WordsFit(copied + Stride(n), length);
  }

  /** Lengths of packets as the tap stores them: not empty, and fitting in a ring. */
  predicate RingLengths(lens: seq<U32>) {
    forall k :: 0 <= k < |lens| ==> 1 <= lens[k] && lens[k] + HEADER < TWO32
  }

  /**
   The copy loop, with `copied` bytes of `length` used and packets of lengths `lens` to come: whether it
   ever stores a byte behind the buffer. All of it is 32-bit unsigned arithmetic. The fit test uses the
   packet length as it is, the advance the aligned one; once `copied` is past `length` the difference wraps
   and the test passes.
   */
  predicate StoresBehind(length: U32, copied: U32, lens: seq<U32>)
    decreases |lens|
  {
    && lens != [] && copied != length
    && (lens[0] + BPF_HDR) % TWO32 <= (length - copied) % TWO32
    && (copied + BPF_HDR + lens[0] > length || StoresBehind(length, (copied + Stride(lens[0])) % TWO32, lens[1..]))
  }

  /**
   Lengths with which the loop stays inside. Besides whole words, and buffers too small for any packet,
   these are the last three: there the advance past the end comes to 2^32, and the loop starts again.
   */
  predicate SoundLength(length: U32) {
    WholeWords(length) || length > TWO32 - 4
  }

  lemma AdvanceStaysInside(length: U32, copied: U32, n: U32)
    requires SoundLength(length) && copied % 4 == 0 && copied + BPF_HDR + n <= length
    ensures var next := (copied + Stride(n)) % TWO32; next <= length && next % 4 == 0
  {
    hide Stride;
    var next := copied + Stride(n);
    StrideIsWords(n);
    WordsAdd(copied, Stride(n));
    if WholeWords(length) {
      PaddingFits(length, copied, n);
      assert next % TWO32 == next;
    } else if next < TWO32 {
      WordsFit(next, TWO32 - 4);
      assert next % TWO32 == next;
    } else {
      WordsFit(next, TWO32);
      assert next % TWO32 == 0;
    }
  }

  lemma {:induction false} SoundLengthsStayInside(length: U32, copied: U32, lens: seq<U32>)
    requires SoundLength(length) && RingLengths(lens) && copied <= length && copied % 4 == 0
    ensures !StoresBehind(length, copied, lens)
    decreases |lens|
  {
    if lens != [] && copied + BPF_HDR + lens[0] <= length {
      AdvanceStaysInside(length, copied, lens[0]);
      SoundLengthsStayInside(length, (copied + Stride(lens[0])) % TWO32, lens[1..]);
    }
  }

  /** For any other length, a packet whose data ends with the buffer, and one byte more. */
  function Overflowing(length: U32): (lens: seq<U32>)
    requires !SoundLength(length)
    ensures RingLengths(lens)
  {
    [length - BPF_HDR, 1]
  }

  lemma OverflowingOverflows(length: U32)
    requires !SoundLength(length)
    ensures StoresBehind(length, 0, Overflowing(length))
  {
    hide Stride;
    var lens := Overflowing(length);
    var next := Stride(length - BPF_HDR);
    StrideIsWords(length - BPF_HDR);
    PastTheEnd(length, next);
    assert lens[0] == length - BPF_HDR && lens[1..] == [1] && next % TWO32 == next;
  }

  /** Behind the end, the fit test passes, and the packet is stored there. */
  lemma PastTheEnd(length: U32, next: U32)
    requires length < next < length + 4
    ensures StoresBehind(length, next, [1])
  {
    assert (length - next) % TWO32 == length - next + TWO32;
  }

  /** The copy loop stays inside the buffer for all packets exactly if the read length is sound. */
  lemma FitTestIsSound(length: U32)
    ensures (forall lens :: RingLengths(lens) ==> !StoresBehind(length, 0, lens)) <==> SoundLength(length)
  {
    if SoundLength(length) {
      forall lens | RingLengths(lens)
        ensures !StoresBehind(length, 0, lens)
      {
        SoundLengthsStayInside(length, 0, lens);
      }
    } else {
      OverflowingOverflows(length);
    }
  }

  /** Storing header and data of a packet at `at`, the padding left as it is, puts the packet there. */
  lemma StoredIsPacket(u: seq<Byte>, at: nat, b: seq<Byte>, pkt: Packet)
    requires |b| == BPF_HDR + |pkt.data| && at + Stride(|pkt.data|) <= |u| && pkt.hdr.caplen == |pkt.data|
    requires HeaderAt(b, 0) == pkt.hdr && b[BPF_HDR..] == pkt.data
    ensures var t, k := Blit(u, at, b), at + Stride(|pkt.data|);
            IsPacket(t[at..k], pkt) && t[..at] == u[..at] && t[k..] == u[k..]
  {
    hide HeaderAt;
    var t, k := Blit(u, at, b), at + Stride(|pkt.data|);
    var c := t[at..k];
    assert c[..|b|] == t[at..at + |b|] == b;
    SlicePrefix(c, |b|);
    assert c[BPF_HDR..BPF_HDR + |pkt.data|] == b[BPF_HDR..];
  }
}
