/** Lowercase two-digit hexadecimal (`format!("{:02x}", byte)` per byte),
    the form in which a blob's 16-byte MD5 digest names its pool file. */
module Hex {
  import opened Bytes

  /** Digit `k` of base 16, lowercase. */
  function Digit(k: nat): (c: char)
    requires k < 16
    ensures IsHexDigit(c)
  {
    if k < 10 then ('0' as int + k) as char else ('a' as int + k - 10) as char
  }

  predicate IsHexDigit(c: char) {
    '0' <= c <= '9' || 'a' <= c <= 'f'
  }

  /** `{:02x}` of one byte: high nibble first. */
  function HexByte(b: byte): (h: string)
    ensures |h| == 2
  {
    [Digit(b as nat / 16), Digit(b as nat % 16)]
  }

  /** The digits of `bs`, two per byte, in order. */
  function Encode(bs: seq<byte>): (h: string)
    ensures |h| == 2 * |bs|
    ensures forall i :: 0 <= i < |h| ==> IsHexDigit(h[i])
  {
    if |bs| == 0 then "" else HexByte(bs[0]) + Encode(bs[1..])
  }

  /** The value of a digit; inverse of `Digit`. */
  function DigitValue(c: char): (v: nat)
    requires IsHexDigit(c)
    ensures v < 16 && Digit(v) == c
  {
    if c <= '9' then c as int - '0' as int else c as int - 'a' as int + 10
  }

  /** Reads pairs of lowercase digits back into bytes. */
  function Decode(h: string): (bs: seq<byte>)
    requires |h| % 2 == 0
    requires forall i :: 0 <= i < |h| ==> IsHexDigit(h[i])
    ensures |bs| == |h| / 2
  {
    if |h| == 0 then []
    else [(16 * DigitValue(h[0]) + DigitValue(h[1])) as byte] + Decode(h[2..])
  }

  /** Character `2i` and `2i+1` of the encoding are the two nibbles of byte `i`. */
  lemma {:induction false} EncodeAt(bs: seq<byte>, i: nat)
    requires i < |bs|
    ensures Encode(bs)[2 * i] == Digit(bs[i] as nat / 16)
    ensures Encode(bs)[2 * i + 1] == Digit(bs[i] as nat % 16)
  {
    if i > 0 {
      EncodeAt(bs[1..], i - 1);
    }
  }

  /** Decoding the digits gives the bytes back. */
  lemma {:induction false} DecodeEncode(bs: seq<byte>)
    ensures Decode(Encode(bs)) == bs
  {
    if |bs| > 0 {
      var h := Encode(bs);
      assert h[2..] == Encode(bs[1..]);
      DecodeEncode(bs[1..]);
      var hi, lo := bs[0] as nat / 16, bs[0] as nat % 16;
      assert h[0] == Digit(hi) && h[1] == Digit(lo);
      assert (16 * hi + lo) as byte == bs[0];
    }
  }

  /** Distinct byte strings have distinct hexadecimal forms. */
  lemma EncodeInjective(a: seq<byte>, b: seq<byte>)
    requires Encode(a) == Encode(b)
    ensures a == b
  {
    DecodeEncode(a);
    DecodeEncode(b);
  }
}
