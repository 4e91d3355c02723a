/** What the machine's arithmetic, comparisons and loads mean, apart from how they are written down. */
module BpfArithmetic {
  import opened Machine
  import opened BpfCode

  // ---------------------------------------------------------------- bits

  /** Bit `k` of `x` is set. */
  predicate Bit(x: nat, k: nat) {
    BitAt(x, k)
  }

  predicate BitAt(x: nat, k: nat) {
    if k == 0 then x % 2 == 1 else BitAt(x / 2, k - 1)
  }

  lemma LastBit(x: nat, bit: nat)
    requires bit <= 1
    ensures (2 * x + bit) / 2 == x && (2 * x + bit) % 2 == bit
  {
  }

  lemma {:induction false} BitwiseBits(n: nat, a: nat, b: nat, both: bool, k: nat)
    requires k < n
    ensures Bit(Bitwise(n, a, b, both), k) == if both then Bit(a, k) && Bit(b, k) else Bit(a, k) || Bit(b, k)
  {
    var bit := if both then a % 2 == 1 && b % 2 == 1 else a % 2 == 1 || b % 2 == 1;
    LastBit(Bitwise(n - 1, a / 2, b / 2, both), if bit then 1 else 0);
    if k > 0 {
      BitwiseBits(n - 1, a / 2, b / 2, both, k - 1);
    }
  }

  /** Numbers of `n` bits with the same bits are the same. */
  lemma {:induction false} SameBits(n: nat, a: nat, b: nat)
    requires a < Pow2(n) && b < Pow2(n)
    requires forall k :: 0 <= k < n ==> Bit(a, k) == Bit(b, k)
    ensures a == b
  {
    if n > 0 {
      assert Bit(a, 0) == Bit(b, 0);
      forall k | 0 <= k < n - 1
        ensures Bit(a / 2, k) == Bit(b / 2, k)
      {
        assert Bit(a, k + 1) == Bit(b, k + 1);
      }
      SameBits(n - 1, a / 2, b / 2);
    }
  }

  /** Bit by bit, `c` has what both `a` and `b` have, or what either has. */
  predicate Combines(n: nat, a: nat, b: nat, both: bool, c: nat) {
    forall k :: 0 <= k < n ==> (Bit(c, k) <==> if both then Bit(a, k) && Bit(b, k) else Bit(a, k) || Bit(b, k))
  }

  lemma BitwiseIs(n: nat, a: nat, b: nat, both: bool, c: nat)
    requires c < Pow2(n)
    ensures c == Bitwise(n, a, b, both) <==> Combines(n, a, b, both, c)
  {
    hide Bit, Bitwise;
    var d := Bitwise(n, a, b, both);
    forall k | 0 <= k < n
      ensures Bit(d, k) <==> if both then Bit(a, k) && Bit(b, k) else Bit(a, k) || Bit(b, k)
    {
      BitwiseBits(n, a, b, both, k);
    }
    if Combines(n, a, b, both, c) {
      SameBits(n, c, d);
    }
  }

  /** A & b and A | b are the only words with the bits both have, and with the bits either has. */
  lemma AndOrAreBitwise(a: U32, b: U32, c: U32)
    ensures c == BitAnd(a, b) <==> Combines(32, a, b, true, c)
    ensures c == BitOr(a, b) <==> Combines(32, a, b, false, c)
  {
    hide Combines, Bitwise, Pow2;
    WordSize();
    BitwiseIs(32, a, b, true, c);
    BitwiseIs(32, a, b, false, c);
  }

  /** A shift to the right drops the low bits. */
  lemma {:induction false} ShiftedBits(a: U32, n: nat, k: nat)
    ensures Bit(ShiftRight(a, n), k) == Bit(a, n + k)
  {
    if n > 0 {
      ShiftedBits(a / 2, n - 1, k);
    }
  }

  // ---------------------------------------------------------------- comparisons

  /**
   JGT, JGE and JEQ are the relations of one order, signed for constants and unsigned for X; the two
   orders differ exactly on words of which one has its top bit set and the other has not.
   */
  lemma ComparisonsAreOrders(x: bool, a: U32, b: U32)
    ensures Satisfies(Jge, x, a, b) <==> Satisfies(Jgt, x, a, b) || Satisfies(Jeq, x, a, b)
    ensures Satisfies(Jge, x, a, b) <==> !Satisfies(Jgt, x, b, a)
    ensures Satisfies(Jeq, x, a, b) <==> Satisfies(Jge, x, a, b) && Satisfies(Jge, x, b, a)
    ensures Satisfies(Jgt, true, a, b) == Satisfies(Jgt, false, a, b)
      <==> (a < 0x8000_0000 <==> b < 0x8000_0000)
    ensures a < 0x8000_0000 <= b ==> Satisfies(Jgt, false, a, b) && Satisfies(Jgt, true, b, a)
  {
  }

  /** JSET asks for a bit in common. */
  lemma JsetSharesBit(x: bool, a: U32, b: U32)
    ensures Satisfies(Jset, x, a, b) <==> exists k :: 0 <= k < 32 && Bit(a, k) && Bit(b, k)
  {
    var zero: U32 := 0;
    AndOrAreBitwise(a, b, zero);
    if Combines(32, a, b, true, zero) {
      forall k | 0 <= k < 32
        ensures !(Bit(a, k) && Bit(b, k))
      {
        NoBits(k);
        assert !Bit(zero, k);
      }
    } else {
      var k :| 0 <= k < 32 && Bit(zero, k) != (Bit(a, k) && Bit(b, k));
      NoBits(k);
      assert Satisfies(Jset, x, a, b);
      assert Bit(a, k) && Bit(b, k);
      assert exists q :: 0 <= q < 32 && Bit(a, q) && Bit(b, q);
    }
  }

  lemma {:induction false} NoBits(k: nat)
    ensures !Bit(0, k)
  {
    if k > 0 {
      NoBits(k - 1);
    }
  }

  // ---------------------------------------------------------------- loads

  /** A number written in bytes, the first of them the most significant. */
  function BigEndian(s: seq<Byte>): nat {
    if s == [] then 0 else 0x100 * BigEndian(s[..|s| - 1]) + s[|s| - 1]
  }

  lemma OneMoreByte(s: seq<Byte>, n: nat)
    requires n < |s|
    ensures BigEndian(s[..n + 1]) == 0x100 * BigEndian(s[..n]) + s[n]
  {
    assert s[..n + 1][..n] == s[..n];
  }

  /** The first one, two and four bytes, one more at a time. */
  lemma FirstBytes(s: seq<Byte>)
    ensures 1 <= |s| ==> BigEndian(s[..1]) == s[0]
    ensures 2 <= |s| ==> BigEndian(s[..2]) == 0x100 * s[0] as int + s[1] as int
    ensures 4 <= |s| ==>
      BigEndian(s[..4]) == 0x100_0000 * s[0] as int + 0x1_0000 * s[1] as int + 0x100 * s[2] as int + s[3] as int
  {
    hide BigEndian;
    if 1 <= |s| {
      OneMoreByte(s, 0);
      NoBytes(s[..0]);
    }
    if 2 <= |s| {
      OneMoreByte(s, 1);
    }
    if 4 <= |s| {
      OneMoreByte(s, 2);
      OneMoreByte(s, 3);
    }
  }

  lemma NoBytes(s: seq<Byte>)
    requires s == []
    ensures BigEndian(s) == 0
  {
  }

  /** Loads take the bytes of the packet in network order. */
  lemma LoadsAreBigEndian(b: seq<Byte>, at: nat, w: Width)
    requires Within(b, at, WidthBytes(w))
    ensures Extract(b, at, w) == BigEndian(b[at..at + WidthBytes(w)])
  {
    hide BigEndian;
    var s := b[at..];
    FirstBytes(s);
    assert s[..WidthBytes(w)] == b[at..at + WidthBytes(w)];
  }
}
