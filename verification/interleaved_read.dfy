/**
 The bytes a read packs for the application while producers go on storing, numbering and publishing
 between any two of its accesses.
*/
module InterleavedRead {
  import opened Machine
  import opened RingImage
  import opened RingSystem
  import opened RingSafety
  import opened UserBuffer

  /**
   From `s` to `t` the reader goes through one read call, interleaved with any steps of the producers, and
   packs the bytes `b` behind the `copied` bytes already in a buffer of `length`. For each packet it takes,
   the fit test has passed, and the bytes are the header it found in the ring and the data it fetched from
   there, with any padding.
   */
  ghost predicate Packs(s: System, run: seq<Step>, t: System, b: seq<Byte>, length: nat, copied: nat)
    decreases |run|
  {
    if run == [] then t == s && b == []
    else
      && Enabled(s, run[0]) && run[0] != EndRead
      && if run[0] == Release then
           var pkt := Packet(s.reader.hdr, s.reader.got);
           var k := Stride(|pkt.data|);
           && copied + BPF_HDR + |pkt.data| <= length && k <= |b| && IsPacket(b[..k], pkt)
           && Packs(Apply(s, Release), run[1..], t, b[k..], length, copied + k)
         else Packs(Apply(s, run[0]), run[1..], t, b, length, copied)
  }

  lemma {:induction false} PacksRuns(s: System, run: seq<Step>, t: System, b: seq<Byte>, length: nat, copied: nat)
    requires Packs(s, run, t, b, length, copied)
    ensures Runs(s, run, t)
    decreases |run|
  {
    hide IsPacket;
    if run != [] {
      var k := if run[0] == Release then Stride(|s.reader.got|) else 0;
      assert b[0..] == b;
      PacksRuns(Apply(s, run[0]), run[1..], t, b[k..], length, copied + k);
    }
  }

  /** What has been packed is what has been delivered meanwhile. */
  lemma {:induction false} PacksDelivered(
      s: System, run: seq<Step>, t: System, b: seq<Byte>, length: nat, copied: nat)
    requires Packs(s, run, t, b, length, copied)
    ensures s.hist.delivered <= t.hist.delivered && Packed(b, t.hist.delivered[|s.hist.delivered|..])
    decreases |run|
  {
    hide IsPacket, Hit, Holds, HeaderAt;
    if run != [] {
      var u, d := Apply(s, run[0]), |s.hist.delivered|;
      if run[0] == Release {
        var pkt := Packet(s.reader.hdr, s.reader.got);
        var k := Stride(|pkt.data|);
        PacksDelivered(u, run[1..], t, b[k..], length, copied + k);
        var rest := t.hist.delivered[d..];
        assert u.hist.delivered == s.hist.delivered + [pkt];
        assert rest[0] == pkt && rest[1..] == t.hist.delivered[d + 1..];
      } else {
        PacksDelivered(u, run[1..], t, b, length, copied);
        assert u.hist.delivered == s.hist.delivered;
      }
    }
  }

  /** In a buffer the fit test is sound for, all of it stays inside. */
  lemma {:induction false} PacksInside(
      s: System, run: seq<Step>, t: System, b: seq<Byte>, length: nat, copied: nat)
    requires Packs(s, run, t, b, length, copied) && WholeWords(length)
    requires copied <= length && copied % 4 == 0
    ensures copied + |b| <= length
    decreases |run|
  {
    hide IsPacket, Hit, Holds, HeaderAt;
    if run != [] {
      if run[0] == Release {
        var n := |s.reader.got|;
        PaddingFits(length, copied, n);
        PacksInside(Apply(s, Release), run[1..], t, b[Stride(n)..], length, copied + Stride(n));
      } else {
        PacksInside(Apply(s, run[0]), run[1..], t, b, length, copied);
      }
    }
  }

  /**
   However producers interleave with a read, the application's walk over the bytes packed recovers exactly
   the packets delivered by it: those next in the global order of acceptance.
   */
  lemma InterleavedReadParses(s: System, run: seq<Step>, t: System, b: seq<Byte>, length: nat)
    requires Inv(s) && Packs(s, run, t, b, length, 0) && WholeWords(length)
    ensures Runs(s, run, t) && Inv(t) && |b| <= length
    ensures s.hist.delivered <= t.hist.delivered <= t.hist.log
    ensures Parse(b) == t.hist.log[|s.hist.delivered|..|t.hist.delivered|]
  {
    hide Packs, Runs, Packed;
    PacksRuns(s, run, t, b, length, 0);
    RunKeeps(s, run, t);
    PacksDelivered(s, run, t, b, length, 0);
    PacksInside(s, run, t, b, length, 0);
    ParseRecovers(b, t.hist.delivered[|s.hist.delivered|..]);
  }
}
