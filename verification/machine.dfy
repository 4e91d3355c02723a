/** Machine integers of the driver, as ranges of `int`, and their little-endian byte images. */
module Machine {

  type Byte = x: int | 0 <= x < 0x100
  type U16 = x: int | 0 <= x < 0x1_0000
  type U32 = x: int | 0 <= x < 0x1_0000_0000

  const TWO32: int := 0x1_0000_0000

  datatype Option<+T> = None | Some(value: T)

  function U16Bytes(v: U16): (b: seq<Byte>)
    ensures |b| == 2
  {
    [v % 0x100, v / 0x100]
  }

  function U32Bytes(v: U32): (b: seq<Byte>)
    ensures |b| == 4
  {
    [v % 0x100, v / 0x100 % 0x100, v / 0x1_0000 % 0x100, v / 0x100_0000]
  }

  function U16At(b: seq<Byte>, at: nat): U16
    requires at + 2 <= |b|
  {
    b[at] as int + 0x100 * b[at + 1] as int
  }

  function U32At(b: seq<Byte>, at: nat): U32
    requires at + 4 <= |b|
  {
    b[at] as int + 0x100 * b[at + 1] as int + 0x1_0000 * b[at + 2] as int + 0x100_0000 * b[at + 3] as int
  }

  /** A word is the sum of its digits to the base 256. */
  lemma Digits(v: U32)
    ensures v == v % 0x100 + 0x100 * (v / 0x100 % 0x100) + 0x1_0000 * (v / 0x1_0000 % 0x100)
                 + 0x100_0000 * (v / 0x100_0000)
  {
    var q1, q2 := v / 0x100, v / 0x1_0000;
    assert q2 == q1 / 0x100 && v / 0x100_0000 == q2 / 0x100;
  }

  /** Four bytes that spell `v` read back as `v`, wherever they are stored. */
  lemma U32RoundTrip(b: seq<Byte>, at: nat, v: U32)
    requires at + 4 <= |b|
    requires b[at..at + 4] == U32Bytes(v)
    ensures U32At(b, at) == v
  {
    var w := b[at..at + 4];
    assert b[at] == w[0] && b[at + 1] == w[1] && b[at + 2] == w[2] && b[at + 3] == w[3];
    Digits(v);
  }

  /** A number written in bytes, the first of them the least significant. */
  function LittleEndian(s: seq<Byte>): nat {
    if s == [] then 0 else s[0] + 0x100 * LittleEndian(s[1..])
  }

  lemma OneByteMore(b: seq<Byte>, at: nat, to: nat)
    requires at < to <= |b|
    ensures LittleEndian(b[at..to]) == b[at] + 0x100 * LittleEndian(b[at + 1..to])
  {
    assert b[at..to][1..] == b[at + 1..to];
  }

  /** Numbers in memory are little-endian. */
  lemma StoredLittleEndian(b: seq<Byte>, at: nat)
    ensures at + 2 <= |b| ==> U16At(b, at) == LittleEndian(b[at..at + 2])
    ensures at + 4 <= |b| ==> U32At(b, at) == LittleEndian(b[at..at + 4])
  {
    if at + 2 <= |b| {
      OneByteMore(b, at, at + 2);
      OneByteMore(b, at + 1, at + 2);
      assert b[at + 2..at + 2] == [];
    }
    if at + 4 <= |b| {
      hide LittleEndian;
      OneByteMore(b, at, at + 4);
      OneByteMore(b, at + 1, at + 4);
      OneByteMore(b, at + 2, at + 4);
      OneByteMore(b, at + 3, at + 4);
      Nothing(b[at + 4..at + 4]);
    }
  }

  lemma Nothing(s: seq<Byte>)
    requires s == []
    ensures LittleEndian(s) == 0
  {
  }

  lemma U16RoundTrip(b: seq<Byte>, at: nat, v: U16)
    requires at + 2 <= |b|
    requires b[at..at + 2] == U16Bytes(v)
    ensures U16At(b, at) == v
  {
    var w := b[at..at + 2];
    assert b[at] == w[0] && b[at + 1] == w[1];
  }

  /** `Packet_WORDALIGN`: the next multiple of four. */
  function WordAlign(x: nat): (r: nat)
    ensures x <= r < x + 4 && r % 4 == 0
  {
    (x + 3) / 4 * 4
  }

  /** Counting in 32 bits is counting modulo 2^32. */
  lemma NextLowBits(n: nat)
    ensures (n % TWO32 + 1) % TWO32 == (n + 1) % TWO32
  {
  }

  /** Two counters less than 2^32 apart are told apart by their low 32 bits. */
  lemma LowBitsIdentify(a: nat, b: nat)
    requires a <= b < a + TWO32
    ensures a % TWO32 == b % TWO32 <==> a == b
  {
    if a % TWO32 == b % TWO32 {
      var qa, qb := a / TWO32, b / TWO32;
      assert b - a == (qb - qa) * TWO32;
    }
  }
}
