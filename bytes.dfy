// Fixed-width integer codecs and hexadecimal text over bytes, as Python's
// `int.from_bytes`, `struct.unpack` and `bytes.hex` compute them.
module ByteCodec {

  /** One byte of a file. */
  type Byte = b: int | 0 <= b < 256

  function Pow256(k: nat): (p: nat)
    ensures p > 0
  {
    if k == 0 then 1 else 256 * Pow256(k - 1)
  }

  // ----- unsigned and signed integers -----

  /** `int.from_bytes(bs, byteorder="little")`: unsigned, least significant byte first. */
  function LittleEndian(bs: seq<Byte>): nat
  {
    if bs == [] then 0 else bs[0] + 256 * LittleEndian(bs[1..])
  }

  /** The unsigned big-endian value of bs: most significant byte first. */
  function BigEndian(bs: seq<Byte>): nat
  {
    if bs == [] then 0 else 256 * BigEndian(bs[..|bs| - 1]) + bs[|bs| - 1]
  }

  /** `struct.unpack(">h" / ">i" / ">q", bs)` for |bs| = 2, 4, 8: two's complement,
      most significant byte first. */
  function SignedBigEndian(bs: seq<Byte>): int
    requires |bs| > 0
  {
    BigEndian(bs) - (if bs[0] >= 128 then Pow256(|bs|) else 0)
  }

  /** Half the range of a k-byte value: two's complement covers
      [-HalfRange(k), HalfRange(k)). */
  function HalfRange(k: nat): (h: int)
    requires k > 0
    ensures h > 0 && 2 * h == Pow256(k)
  {
    128 * Pow256(k - 1)
  }

  /** The k-byte little-endian encoding of n (the inverse of LittleEndian). */
  function EncodeLittleEndian(n: nat, k: nat): (bs: seq<Byte>)
    ensures |bs| == k
  {
    if k == 0 then [] else [n % 256] + EncodeLittleEndian(n / 256, k - 1)
  }

  /** The k-byte big-endian encoding of n (the inverse of BigEndian). */
  function EncodeBigEndian(n: nat, k: nat): (bs: seq<Byte>)
    ensures |bs| == k
  {
    if k == 0 then [] else EncodeBigEndian(n / 256, k - 1) + [n % 256]
  }

  /** The k-byte two's-complement big-endian encoding of x. */
  function EncodeSignedBigEndian(x: int, k: nat): (bs: seq<Byte>)
    requires k > 0 && -HalfRange(k) <= x < HalfRange(k)
    ensures |bs| == k
  {
    EncodeBigEndian(if x < 0 then x + Pow256(k) else x, k)
  }

  /** A little-endian value fits its width: it is below 256^|bs|. */
  lemma {:induction false} LittleEndianBound(bs: seq<Byte>)
    ensures LittleEndian(bs) < Pow256(|bs|)
  {
    if bs != [] {
      LittleEndianBound(bs[1..]);
    }
  }

  /** Encoding a decoded little-endian value gives back the bytes. */
  lemma {:induction false} LittleEndianRoundTrip(bs: seq<Byte>)
    ensures EncodeLittleEndian(LittleEndian(bs), |bs|) == bs
  {
    if bs != [] {
      LittleEndianRoundTrip(bs[1..]);
      var n := LittleEndian(bs);
      assert n % 256 == bs[0] && n / 256 == LittleEndian(bs[1..]);
    }
  }

  /** Decoding a little-endian encoding gives back any value that fits. */
  lemma {:induction false} EncodeLittleEndianRoundTrip(n: nat, k: nat)
    requires n < Pow256(k)
    ensures LittleEndian(EncodeLittleEndian(n, k)) == n
  {
    if k > 0 {
      EncodeLittleEndianRoundTrip(n / 256, k - 1);
      var bs := EncodeLittleEndian(n, k);
      assert bs[1..] == EncodeLittleEndian(n / 256, k - 1);
    }
  }

  lemma {:induction false} BigEndianBound(bs: seq<Byte>)
    ensures BigEndian(bs) < Pow256(|bs|)
  {
    if bs != [] {
      BigEndianBound(bs[..|bs| - 1]);
    }
  }

  /** Splitting off the most significant byte. */
  lemma {:induction false} BigEndianHead(bs: seq<Byte>)
    requires |bs| > 0
    ensures BigEndian(bs) == bs[0] * Pow256(|bs| - 1) + BigEndian(bs[1..])
  {
    if |bs| > 1 {
      var init, tail := bs[..|bs| - 1], bs[1..];
      BigEndianHead(init);
      assert init[1..] == tail[..|tail| - 1];
      var p := Pow256(|bs| - 2);
      var b := BigEndian(init[1..]);
      assert BigEndian(init) == bs[0] * p + b;
      assert BigEndian(tail) == 256 * b + bs[|bs| - 1];
      assert 256 * (bs[0] * p) == bs[0] * (256 * p);
    }
  }

  lemma {:induction false} BigEndianRoundTrip(bs: seq<Byte>)
    ensures EncodeBigEndian(BigEndian(bs), |bs|) == bs
  {
    if bs != [] {
      var init := bs[..|bs| - 1];
      BigEndianRoundTrip(init);
      var n := BigEndian(bs);
      assert n % 256 == bs[|bs| - 1] && n / 256 == BigEndian(init);
    }
  }

  lemma {:induction false} EncodeBigEndianRoundTrip(n: nat, k: nat)
    requires n < Pow256(k)
    ensures BigEndian(EncodeBigEndian(n, k)) == n
  {
    if k > 0 {
      EncodeBigEndianRoundTrip(n / 256, k - 1);
      var bs := EncodeBigEndian(n, k);
      assert bs[..k - 1] == EncodeBigEndian(n / 256, k - 1);
    }
  }

  lemma MulNonneg(a: int, b: int)
    requires a >= 0 && b >= 0
    ensures a * b >= 0
  {
  }

  lemma TopDigit(b: int, p: int, t: int)
    requires 0 <= b < 256 && p > 0 && 0 <= t < p
    ensures b >= 128 <==> b * p + t >= 128 * p
  {
    if b >= 128 {
      MulNonneg(b - 128, p);
      assert b * p == 128 * p + (b - 128) * p;
    } else {
      MulNonneg(127 - b, p);
      assert 128 * p == b * p + (127 - b) * p + p;
    }
  }

  /** The sign byte of a two's-complement value: the top byte is at least 128
      exactly when the unsigned value reaches half the range. */
  lemma SignBit(bs: seq<Byte>)
    requires |bs| > 0
    ensures bs[0] >= 128 <==> BigEndian(bs) >= HalfRange(|bs|)
  {
    BigEndianHead(bs);
    BigEndianBound(bs[1..]);
    TopDigit(bs[0], Pow256(|bs| - 1), BigEndian(bs[1..]));
  }

  /** struct.unpack's signed values lie in the two's-complement range of their width. */
  lemma SignedBigEndianRange(bs: seq<Byte>)
    requires |bs| > 0
    ensures -HalfRange(|bs|) <= SignedBigEndian(bs) < HalfRange(|bs|)
  {
    SignBit(bs);
    BigEndianBound(bs);
  }

  /** Decoding the two's-complement encoding of x gives back x. */
  lemma SignedRoundTrip(x: int, k: nat)
    requires k > 0 && -HalfRange(k) <= x < HalfRange(k)
    ensures SignedBigEndian(EncodeSignedBigEndian(x, k)) == x
  {
    var n := if x < 0 then x + Pow256(k) else x;
    EncodeBigEndianRoundTrip(n, k);
    SignBit(EncodeBigEndian(n, k));
  }

  /** Re-encoding a decoded signed value reproduces the original bytes. */
  lemma SignedBytesRoundTrip(bs: seq<Byte>)
    requires |bs| > 0
    ensures -HalfRange(|bs|) <= SignedBigEndian(bs) < HalfRange(|bs|)
    ensures EncodeSignedBigEndian(SignedBigEndian(bs), |bs|) == bs
  {
    SignedBigEndianRange(bs);
    SignBit(bs);
    BigEndianBound(bs);
    BigEndianRoundTrip(bs);
    var x := SignedBigEndian(bs);
    assert (if x < 0 then x + Pow256(|bs|) else x) == BigEndian(bs);
  }

  // ----- hexadecimal text -----

  function HexDigit(d: nat): char
    requires d < 16
  {
    if d < 10 then (('0' as int) + d) as char else (('a' as int) + d - 10) as char
  }

  predicate IsHexDigit(c: char)
  {
    '0' <= c <= '9' || 'a' <= c <= 'f'
  }

  function HexDigitValue(c: char): (d: nat)
    requires IsHexDigit(c)
    ensures d < 16 && HexDigit(d) == c
  {
    if c <= '9' then (c as int) - ('0' as int) else (c as int) - ('a' as int) + 10
  }

  function HexByte(b: Byte): string
  {
    [HexDigit(b / 16), HexDigit(b % 16)]
  }

  /** `bs.hex()`: two lower-case hexadecimal digits per byte. */
  function Hex(bs: seq<Byte>): (s: string)
    ensures |s| == 2 * |bs|
  {
    if bs == [] then "" else HexByte(bs[0]) + Hex(bs[1..])
  }

  /** `bytes.fromhex(s)` on lower-case text of even length. */
  function UnHex(s: string): seq<Byte>
    requires |s| % 2 == 0
    requires forall i | 0 <= i < |s| :: IsHexDigit(s[i])
  {
    if s == [] then [] else [16 * HexDigitValue(s[0]) + HexDigitValue(s[1])] + UnHex(s[2..])
  }

  /** `bs.hex()` is lower-case hexadecimal text that `bytes.fromhex` reads back as bs. */
  lemma {:induction false} HexRoundTrip(bs: seq<Byte>)
    ensures forall i | 0 <= i < |Hex(bs)| :: IsHexDigit(Hex(bs)[i])
    ensures UnHex(Hex(bs)) == bs
  {
    if bs != [] {
      HexRoundTrip(bs[1..]);
      var h := Hex(bs);
      assert h[2..] == Hex(bs[1..]);
      assert HexDigitValue(h[0]) == bs[0] / 16 && HexDigitValue(h[1]) == bs[0] % 16;
      forall i | 0 <= i < |h| ensures IsHexDigit(h[i]) {
        if i >= 2 {
          assert h[i] == Hex(bs[1..])[i - 2];
        }
      }
    }
  }

  lemma {:induction false} HexConcat(a: seq<Byte>, b: seq<Byte>)
    ensures Hex(a + b) == Hex(a) + Hex(b)
  {
    if a != [] {
      HexConcat(a[1..], b);
      assert (a + b)[1..] == a[1..] + b;
    } else {
      assert a + b == b;
    }
  }

  /** The hex text of four bytes, byte by byte. */
  lemma HexFour(b0: Byte, b1: Byte, b2: Byte, b3: Byte)
    ensures Hex([b0, b1, b2, b3]) == HexByte(b0) + HexByte(b1) + HexByte(b2) + HexByte(b3)
  {
    assert [b0, b1, b2, b3][1..] == [b1, b2, b3];
    assert [b1, b2, b3][1..] == [b2, b3];
    assert [b2, b3][1..] == [b3];
    assert [b3][1..] == [];
    assert Hex([b3]) == HexByte(b3) + Hex([]);
    assert Hex([b2, b3]) == HexByte(b2) + Hex([b3]);
    assert Hex([b1, b2, b3]) == HexByte(b1) + Hex([b2, b3]);
  }
}
