/** Bytes and the two 4-byte integer layouts the Rapid formats use: the
    little-endian `size` field of a descriptor record and the big-endian
    length prefix of a streamed pool file. Rust's `u32` is a `nat` below
    `U32_LIMIT`. */
module Bytes {

  newtype byte = x: int | 0 <= x < 256

  const U32_LIMIT: nat := 0x1_0000_0000

  /** `u32::to_le_bytes`. */
  function LittleEndian(n: nat): (bs: seq<byte>)
    requires n < U32_LIMIT
    ensures |bs| == 4
  {
    [(n % 256) as byte, (n / 256 % 256) as byte, (n / 65536 % 256) as byte, (n / 16777216) as byte]
  }

  /** `u32::from_le_bytes`. */
  function FromLittleEndian(bs: seq<byte>): (n: nat)
    requires |bs| == 4
    ensures n < U32_LIMIT
  {
    bs[0] as nat + 256 * (bs[1] as nat) + 65536 * (bs[2] as nat) + 16777216 * (bs[3] as nat)
  }

  /** `u32::to_be_bytes`. */
  function BigEndian(n: nat): (bs: seq<byte>)
    requires n < U32_LIMIT
    ensures |bs| == 4
  {
    [(n / 16777216) as byte, (n / 65536 % 256) as byte, (n / 256 % 256) as byte, (n % 256) as byte]
  }

  /** `u32::from_be_bytes`. */
  function FromBigEndian(bs: seq<byte>): (n: nat)
    requires |bs| == 4
    ensures n < U32_LIMIT
  {
    16777216 * (bs[0] as nat) + 65536 * (bs[1] as nat) + 256 * (bs[2] as nat) + bs[3] as nat
  }

  /** The big-endian layout is the little-endian one read backwards. */
  lemma BigEndianIsReversedLittleEndian(n: nat)
    requires n < U32_LIMIT
    ensures BigEndian(n) == [LittleEndian(n)[3], LittleEndian(n)[2], LittleEndian(n)[1], LittleEndian(n)[0]]
  {
  }

  lemma DigitsRecompose(n: nat)
    requires n < U32_LIMIT
    ensures n % 256 + 256 * (n / 256 % 256) + 65536 * (n / 65536 % 256) + 16777216 * (n / 16777216) == n
  {
    var a, b, c := n / 256, n / 65536, n / 16777216;
    assert n == n % 256 + 256 * a;
    assert a == a % 256 + 256 * (a / 256);
    assert a / 256 == b;
    assert b == b % 256 + 256 * (b / 256);
    assert b / 256 == c;
  }

  lemma DigitsOf(b0: nat, b1: nat, b2: nat, b3: nat)
    requires b0 < 256 && b1 < 256 && b2 < 256 && b3 < 256
    ensures var n := b0 + 256 * b1 + 65536 * b2 + 16777216 * b3;
      n % 256 == b0 && n / 256 % 256 == b1 && n / 65536 % 256 == b2 && n / 16777216 == b3
  {
    var n := b0 + 256 * b1 + 65536 * b2 + 16777216 * b3;
    var hi := b1 + 256 * b2 + 65536 * b3;
    assert n == b0 + 256 * hi;
    assert n / 256 == hi;
    var hi2 := b2 + 256 * b3;
    assert hi == b1 + 256 * hi2;
    assert hi / 256 == hi2;
    assert n / 65536 == hi2 by {
      assert n == (b0 + 256 * b1) + 65536 * hi2;
    }
    assert n / 16777216 == b3 by {
      assert n == (b0 + 256 * b1 + 65536 * b2) + 16777216 * b3;
    }
  }

  /** Reading back what `LittleEndian` wrote gives the number. */
  lemma LittleEndianRoundTrip(n: nat)
    requires n < U32_LIMIT
    ensures FromLittleEndian(LittleEndian(n)) == n
  {
    DigitsRecompose(n);
  }

  /** Every 4-byte group is the little-endian image of the number it denotes. */
  lemma FromLittleEndianRoundTrip(bs: seq<byte>)
    requires |bs| == 4
    ensures LittleEndian(FromLittleEndian(bs)) == bs
  {
    DigitsOf(bs[0] as nat, bs[1] as nat, bs[2] as nat, bs[3] as nat);
  }

  lemma BigEndianRoundTrip(n: nat)
    requires n < U32_LIMIT
    ensures FromBigEndian(BigEndian(n)) == n
  {
    DigitsRecompose(n);
  }

  lemma FromBigEndianRoundTrip(bs: seq<byte>)
    requires |bs| == 4
    ensures BigEndian(FromBigEndian(bs)) == bs
  {
    DigitsOf(bs[3] as nat, bs[2] as nat, bs[1] as nat, bs[0] as nat);
  }
}
