/**
 Stores into a ring image. `Blit` is one memory move; `WrapWrite` is one logical write that goes
 round the end of the ring; `RecordImage` is what every copy path of the producer has to achieve.
*/
module RingWrite {
  import opened Machine
  import opened RingImage

  function Blit(s: seq<Byte>, off: nat, d: seq<Byte>): (t: seq<Byte>)
    requires off + |d| <= |s|
    ensures |t| == |s|
  {
    s[..off] + d + s[off + |d|..]
  }

  lemma BlitAt(s: seq<Byte>, off: nat, d: seq<Byte>, k: nat)
    requires off + |d| <= |s| && k < |s|
    ensures Blit(s, off, d)[k] == if off <= k < off + |d| then d[k - off] else s[k]
  {
  }

  /** Two images that agree outside `lo..hi` agree on every slice outside of it. */
  lemma SameElsewhere(s: seq<Byte>, t: seq<Byte>, lo: nat, hi: nat, a: nat, b: nat)
    requires lo <= hi <= |s| == |t| && s[..lo] == t[..lo] && s[hi..] == t[hi..]
    requires a <= b <= |s| && (b <= lo || hi <= a)
    ensures s[a..b] == t[a..b]
  {
    forall k | 0 <= k < b - a
      ensures s[a..b][k] == t[a..b][k]
    {
      if b <= lo {
        assert s[..lo][a + k] == t[..lo][a + k];
      } else {
        assert s[hi..][a + k - hi] == t[hi..][a + k - hi];
      }
    }
  }

  /** Places from `at` to `i`, going round. */
  function Distance(size: nat, at: nat, i: nat): (x: nat)
    requires at < size && i < size
    ensures x < size
  {
    if at <= i then i - at else i + size - at
  }

  function WrapWrite(s: seq<Byte>, at: nat, d: seq<Byte>): (t: seq<Byte>)
    requires at < |s| && |d| <= |s|
    ensures |t| == |s|
  {
    seq(|s|, i requires 0 <= i < |s| => WrapByte(s, at, d, i))
  }

  function WrapByte(s: seq<Byte>, at: nat, d: seq<Byte>, i: nat): Byte
    requires at < |s| && |d| <= |s| && i < |s|
  {
    var x := Distance(|s|, at, i);
    if x < |d| then d[x] else s[i]
  }

  lemma WrapWriteAt(s: seq<Byte>, at: nat, d: seq<Byte>, i: nat)
    requires at < |s| && |d| <= |s| && i < |s|
    ensures WrapWrite(s, at, d)[i] == WrapByte(s, at, d, i)
  {
  }

  lemma BlitIsWrapWrite(s: seq<Byte>, at: nat, d: seq<Byte>)
    requires at < |s| && at + |d| <= |s|
    ensures Blit(s, at, d) == WrapWrite(s, at, d)
  {
  }

  /** A write can be cut anywhere: the second half starts where the first one stops. */
  lemma WrapWriteSplit(s: seq<Byte>, at: nat, a: seq<Byte>, b: seq<Byte>)
    requires at < |s| && |a| + |b| <= |s|
    ensures WrapWrite(s, at, a + b) == WrapWrite(WrapWrite(s, at, a), Fold(|s|, at + |a|), b)
  {
    var t := WrapWrite(s, at, a);
    forall i | 0 <= i < |s|
      ensures WrapByte(s, at, a + b, i) == WrapByte(t, Fold(|s|, at + |a|), b, i)
    {
    }
  }

  /** Two moves, up to the end of the ring and from its start, are one wrapped write. */
  lemma TwoBlits(s: seq<Byte>, at: nat, d: seq<Byte>)
    requires at < |s| && |d| <= |s| && |s| - at < |d|
    ensures WrapWrite(s, at, d) == Blit(Blit(s, at, d[..|s| - at]), 0, d[|s| - at..])
  {
    assert d == d[..|s| - at] + d[|s| - at..];
    WrapWriteSplit(s, at, d[..|s| - at], d[|s| - at..]);
    BlitIsWrapWrite(s, at, d[..|s| - at]);
    BlitIsWrapWrite(Blit(s, at, d[..|s| - at]), 0, d[|s| - at..]);
  }

  /** Read the other way: what lies where after the write. */
  lemma WrapWriteNth(s: seq<Byte>, at: nat, d: seq<Byte>, x: nat)
    requires at < |s| && |d| <= |s| && x < |s|
    ensures Nth(WrapWrite(s, at, d), at, x) == if x < |d| then d[x] else Nth(s, at, x)
  {
    assert Distance(|s|, at, Fold(|s|, at + x)) == x;
  }

  // ---------------------------------------------------------------- one move after the other

  /** One memory move into the ring. */
  datatype Copy = Copy(off: nat, data: seq<Byte>)

  /** The move stays inside the `len` bytes from `p` on, going round. */
  predicate Inside(size: nat, p: nat, len: nat, c: Copy) {
    && p < size && len <= size && c.off + |c.data| <= size
    && forall k :: c.off <= k < c.off + |c.data| ==> Distance(size, p, k) < len
  }

  /** The moves lead from `s` to `t`, and every single one stays inside the `len` bytes from `p` on. */
  ghost predicate StepByStep(s: seq<Byte>, t: seq<Byte>, cs: seq<Copy>, p: nat, len: nat)
    ensures StepByStep(s, t, cs, p, len) ==> |t| == |s|
    decreases |cs|
  {
    if cs == [] then t == s
    else Inside(|s|, p, len, cs[0]) && StepByStep(Blit(s, cs[0].off, cs[0].data), t, cs[1..], p, len)
  }

  lemma OneMove(s: seq<Byte>, c: Copy, p: nat, len: nat)
    requires Inside(|s|, p, len, c)
    ensures StepByStep(s, Blit(s, c.off, c.data), [c], p, len)
  {
    assert [c][1..] == [];
  }

  lemma {:induction false} MovesThen(
      s: seq<Byte>, t: seq<Byte>, u: seq<Byte>, a: seq<Copy>, b: seq<Copy>, p: nat, len: nat)
    requires StepByStep(s, t, a, p, len) && StepByStep(t, u, b, p, len)
    ensures StepByStep(s, u, a + b, p, len)
    decreases |a|
  {
    if a == [] {
      assert a + b == b;
    } else {
      assert (a + b)[1..] == a[1..] + b;
      MovesThen(Blit(s, a[0].off, a[0].data), t, u, a[1..], b, p, len);
    }
  }

  lemma DistanceShift(size: nat, p: nat, m: nat, n: nat, k: nat)
    requires p < size && k < size && m + n <= size && p + m < 2 * size
    requires Fold(size, p + m) < size && Distance(size, Fold(size, p + m), k) < n
    ensures Distance(size, p, k) < m + n
  {
  }

  lemma InsideShift(size: nat, p: nat, m: nat, n: nat, len: nat, c: Copy)
    requires p < size && m + n <= len <= size && Inside(size, Fold(size, p + m), n, c)
    ensures Inside(size, p, len, c)
  {
    forall k | c.off <= k < c.off + |c.data|
      ensures Distance(size, p, k) < len
    {
      DistanceShift(size, p, m, n, k);
    }
  }

  /** What stays inside a part stays inside the whole. */
  lemma {:induction false} MovesWithin(
      s: seq<Byte>, t: seq<Byte>, cs: seq<Copy>, p: nat, m: nat, n: nat, len: nat)
    requires p < |s| && m + n <= len <= |s| && StepByStep(s, t, cs, Fold(|s|, p + m), n)
    ensures StepByStep(s, t, cs, p, len)
    decreases |cs|
  {
    hide Fold;
    if cs != [] {
      InsideShift(|s|, p, m, n, len, cs[0]);
      MovesWithin(Blit(s, cs[0].off, cs[0].data), t, cs[1..], p, m, n, len);
    }
  }

  /** Moves over the first `m` bytes and then over the next `n`. */
  lemma MovesJoin(
      s: seq<Byte>, t: seq<Byte>, u: seq<Byte>, a: seq<Copy>, b: seq<Copy>, p: nat, m: nat, n: nat)
    requires p < |s| && m + n <= |s|
    requires StepByStep(s, t, a, p, m) && StepByStep(t, u, b, Fold(|s|, p + m), n)
    ensures StepByStep(s, u, a + b, p, m + n)
  {
    hide StepByStep;
    MovesWithin(s, t, a, p, 0, m, m + n);
    MovesWithin(t, u, b, p, m, n, m + n);
    MovesThen(s, t, u, a, b, p, m + n);
  }

  /** One move of all bytes, if they fit before the end of the ring. */
  lemma WholeMove(s: seq<Byte>, at: nat, d: seq<Byte>)
    requires at < |s| && at + |d| <= |s|
    ensures StepByStep(s, Blit(s, at, d), [Copy(at, d)], at, |d|)
  {
    OneMove(s, Copy(at, d), at, |d|);
  }

  /** Two moves, up to the end of the ring and from its start. */
  lemma SplitMoves(s: seq<Byte>, at: nat, d: seq<Byte>)
    requires at < |s| && |d| <= |s| && |s| - at < |d|
    ensures var k := |s| - at;
            StepByStep(s, Blit(Blit(s, at, d[..k]), 0, d[k..]), [Copy(at, d[..k]), Copy(0, d[k..])], at, |d|)
  {
    var k := |s| - at;
    var a, b := Copy(at, d[..k]), Copy(0, d[k..]);
    var t := Blit(s, at, d[..k]);
    OneMove(s, a, at, |d|);
    OneMove(t, b, at, |d|);
    MovesThen(s, t, Blit(t, 0, d[k..]), [a], [b], at, |d|);
    assert [a] + [b] == [a, b];
  }

  /** A move inside the reserved bytes changes nothing outside them. */
  lemma MoveStaysWithin(s: seq<Byte>, c: Copy, p: nat, len: nat)
    requires Inside(|s|, p, len, c)
    ensures OnlyWithin(s, Blit(s, c.off, c.data), p, len)
  {
    var t := Blit(s, c.off, c.data);
    forall x | len <= x < |s|
      ensures Nth(s, p, x) == Nth(t, p, x)
    {
      assert Distance(|s|, p, Fold(|s|, p + x)) == x;
    }
  }

  // ---------------------------------------------------------------- a record

  /** The header up to its padding, in the order the tap completes it. */
  function StampBytes(sn: U32, sec: U32, usec: U32): (b: seq<Byte>)
    ensures |b| == 12
  {
    U32Bytes(sn) + U32Bytes(sec) + U32Bytes(usec)
  }

  function LengthBytes(caplen: U32, datalen: U32, hdrlen: U16): (b: seq<Byte>)
    ensures |b| == 10
  {
    U32Bytes(caplen) + U32Bytes(datalen) + U16Bytes(hdrlen)
  }

  /** The 24 bytes of a struct PacketHeader; the two padding bytes are whatever was there. */
  function HeaderBytes(sn: U32, h: BpfHdr, pad: seq<Byte>): (b: seq<Byte>)
    requires |pad| == 2
    ensures |b| == HEADER
  {
    StampBytes(sn, h.sec, h.usec) + LengthBytes(h.caplen, h.datalen, h.hdrlen) + pad
  }

  /** The image after the record has been stored at `p`, in one wrapped write. */
  function RecordImage(s: seq<Byte>, p: nat, sn: U32, h: BpfHdr, data: seq<Byte>): (t: seq<Byte>)
    requires Fits(|s|, p, |data|)
    ensures |t| == |s|
  {
    WrapWrite(s, p, HeaderBytes(sn, h, s[p + 22..p + HEADER]) + data)
  }

  /** Time stamp and number first, lengths after: together the whole header, padding untouched. */
  lemma HeaderInTwo(s: seq<Byte>, p: nat, sn: U32, h: BpfHdr)
    requires p + HEADER <= |s|
    ensures Blit(Blit(s, p, StampBytes(sn, h.sec, h.usec)), p + 12, LengthBytes(h.caplen, h.datalen, h.hdrlen))
            == Blit(s, p, HeaderBytes(sn, h, s[p + 22..p + HEADER]))
  {
    hide StampBytes, LengthBytes;
    var a, b := StampBytes(sn, h.sec, h.usec), LengthBytes(h.caplen, h.datalen, h.hdrlen);
    var t := Blit(s, p, a);
    assert t[..p + 12] == s[..p] + a && t[p + 22..] == s[p + 22..p + HEADER] + s[p + HEADER..];
  }

  lemma Middle(a: seq<Byte>, b: seq<Byte>, c: seq<Byte>)
    ensures (a + b + c)[|a|..|a| + |b|] == b
  {
  }

  lemma SubSlice(t: seq<Byte>, p: nat, n: nat, i: nat, j: nat)
    requires p + n <= |t| && i <= j <= n
    ensures t[p + i..p + j] == t[p..p + n][i..j]
  {
    var u, v := t[p + i..p + j], t[p..p + n];
    forall k | 0 <= k < j - i
      ensures u[k] == v[i..j][k]
    {
      assert u[k] == t[p + i + k] == v[i + k];
    }
  }

  lemma StampReadsBack(t: seq<Byte>, p: nat, sn: U32, sec: U32, usec: U32)
    requires p + 12 <= |t| && t[p..p + 12] == StampBytes(sn, sec, usec)
    ensures U32At(t, p) == sn && U32At(t, p + 4) == sec && U32At(t, p + 8) == usec
  {
    hide U32Bytes, U32At;
    var b := StampBytes(sn, sec, usec);
    Middle([], U32Bytes(sn), U32Bytes(sec) + U32Bytes(usec));
    Middle(U32Bytes(sn), U32Bytes(sec), U32Bytes(usec));
    SubSlice(t, p, 12, 0, 4);
    SubSlice(t, p, 12, 4, 8);
    SubSlice(t, p, 12, 8, 12);
    assert b == [] + U32Bytes(sn) + (U32Bytes(sec) + U32Bytes(usec));
    U32RoundTrip(t, p, sn);
    U32RoundTrip(t, p + 4, sec);
    U32RoundTrip(t, p + 8, usec);
  }

  lemma LengthReadsBack(t: seq<Byte>, p: nat, caplen: U32, datalen: U32, hdrlen: U16)
    requires p + 10 <= |t| && t[p..p + 10] == LengthBytes(caplen, datalen, hdrlen)
    ensures U32At(t, p) == caplen && U32At(t, p + 4) == datalen && U16At(t, p + 8) == hdrlen
  {
    hide U32Bytes, U16Bytes, U32At, U16At;
    var b := LengthBytes(caplen, datalen, hdrlen);
    Middle(U32Bytes(caplen), U32Bytes(datalen), U16Bytes(hdrlen));
    SubSlice(t, p, 10, 0, 4);
    SubSlice(t, p, 10, 4, 8);
    SubSlice(t, p, 10, 8, 10);
    assert b == [] + U32Bytes(caplen) + (U32Bytes(datalen) + U16Bytes(hdrlen));
    U32RoundTrip(t, p, caplen);
    U32RoundTrip(t, p + 4, datalen);
    U16RoundTrip(t, p + 8, hdrlen);
  }

  lemma HeaderReadsBack(t: seq<Byte>, p: nat, sn: U32, h: BpfHdr, pad: seq<Byte>)
    requires p + HEADER <= |t| && |pad| == 2
    requires t[p..p + HEADER] == HeaderBytes(sn, h, pad)
    ensures U32At(t, p) == sn && HeaderAt(t, p + 4) == h
  {
    hide StampBytes, LengthBytes, U32At, U16At;
    var b := HeaderBytes(sn, h, pad);
    SubSlice(t, p, HEADER, 0, 12);
    SubSlice(t, p, HEADER, 12, 22);
    StampReadsBack(t, p, sn, h.sec, h.usec);
    LengthReadsBack(t, p + 12, h.caplen, h.datalen, h.hdrlen);
  }

  /** The layout of a packet header in memory, byte by byte. */
  lemma HeaderLayout(sn: U32, h: BpfHdr, pad: seq<Byte>)
    requires |pad| == 2
    ensures var b := HeaderBytes(sn, h, pad);
            && LittleEndian(b[0..4]) == sn
            && LittleEndian(b[4..8]) == h.sec && LittleEndian(b[8..12]) == h.usec
            && LittleEndian(b[12..16]) == h.caplen && LittleEndian(b[16..20]) == h.datalen
            && LittleEndian(b[20..22]) == h.hdrlen
  {
    hide StampBytes, LengthBytes, U32At, U16At, LittleEndian;
    var b := HeaderBytes(sn, h, pad);
    assert b[0..12] == StampBytes(sn, h.sec, h.usec);
    assert b[12..22] == LengthBytes(h.caplen, h.datalen, h.hdrlen);
    StampReadsBack(b, 0, sn, h.sec, h.usec);
    LengthReadsBack(b, 12, h.caplen, h.datalen, h.hdrlen);
    StoredLittleEndian(b, 0);
    StoredLittleEndian(b, 4);
    StoredLittleEndian(b, 8);
    StoredLittleEndian(b, 12);
    StoredLittleEndian(b, 16);
    StoredLittleEndian(b, 20);
  }

  /** A stored record is one the reader finds, and nothing outside its bytes has changed. */
  lemma RecordHolds(s: seq<Byte>, p: nat, idx: nat, h: BpfHdr, data: seq<Byte>)
    requires Fits(|s|, p, |data|) && h.caplen == |data|
    ensures Holds(RecordImage(s, p, idx % TWO32, h, data), p, Entry(idx, Packet(h, data)))
    ensures OnlyWithin(s, RecordImage(s, p, idx % TWO32, h, data), p, HEADER + |data|)
  {
    hide StampBytes, LengthBytes, U32At, U16At;
    var sn: U32 := idx % TWO32;
    var t := RecordImage(s, p, sn, h, data);
    var b := HeaderBytes(sn, h, s[p + 22..p + HEADER]);
    assert t[p..p + HEADER] == b;
    HeaderReadsBack(t, p, sn, h, s[p + 22..p + HEADER]);
    forall x | 0 <= x < |data|
      ensures Nth(t, p, HEADER + x) == data[x]
    {
      WrapWriteNth(s, p, b + data, HEADER + x);
    }
    forall x | HEADER + |data| <= x < |s|
      ensures Nth(s, p, x) == Nth(t, p, x)
    {
      WrapWriteNth(s, p, b + data, x);
    }
  }

  /** Storing the header and then the payload is storing the record. */
  lemma HeaderThenPayload(s: seq<Byte>, p: nat, sn: U32, h: BpfHdr, data: seq<Byte>)
    requires Fits(|s|, p, |data|)
    ensures RecordImage(s, p, sn, h, data)
            == WrapWrite(Blit(s, p, HeaderBytes(sn, h, s[p + 22..p + HEADER])), PayloadStart(|s|, p), data)
  {
    hide HeaderBytes;
    var b := HeaderBytes(sn, h, s[p + 22..p + HEADER]);
    BlitIsWrapWrite(s, p, b);
    WrapWriteSplit(s, p, b, data);
  }

  /** Bytes a record overwrites do not matter, its two padding bytes apart. */
  lemma RecordForgets(s: seq<Byte>, t: seq<Byte>, p: nat, sn: U32, h: BpfHdr, data: seq<Byte>)
    requires Fits(|s|, p, |data|) && OnlyWithin(s, t, p, HEADER + |data|)
    requires s[p + 22..p + HEADER] == t[p + 22..p + HEADER]
    ensures RecordImage(s, p, sn, h, data) == RecordImage(t, p, sn, h, data)
  {
    hide HeaderBytes;
    var d := HeaderBytes(sn, h, s[p + 22..p + HEADER]) + data;
    forall i | 0 <= i < |s|
      ensures WrapByte(s, p, d, i) == WrapByte(t, p, d, i)
    {
      var x := Distance(|s|, p, i);
      if |d| <= x {
        assert Nth(s, p, x) == Nth(t, p, x);
      }
    }
  }
}
