// The byte codecs shared by the hash codes: big-endian int and long
// encodings, their decoders, and the fixed-length encoding of big integers.

module Codecs {
  import opened JavaMath
  import opened Results

  /** `new BigInteger(1, bytes)`: the bytes read as an unsigned big-endian number. */
  function BigFromBytes(bs: seq<int8>): (r: nat)
  {
    if bs == [] then 0 else BigFromBytes(bs[..|bs| - 1]) * TWO_8 + Unsigned8(bs[|bs| - 1])
  }

  /** An unsigned reading of n bytes is below 2^(8n). */
  lemma {:induction false} BigFromBytesBound(bs: seq<int8>)
    ensures BigFromBytes(bs) < Pow2(8 * |bs|)
  {
    if bs != [] {
      var n := |bs| - 1;
      BigFromBytesBound(bs[..n]);
      Pow2Of8();
      Pow2Add(8 * n, 8);
      assert 8 * |bs| == 8 * n + 8;
    }
  }

  /** Appending a byte appends a base-256 digit. */
  lemma BigFromBytesSnoc(bs: seq<int8>, b: int8)
    ensures BigFromBytes(bs + [b]) == BigFromBytes(bs) * TWO_8 + Unsigned8(b)
  {
    assert (bs + [b])[..|bs|] == bs;
  }

  /** One more byte of a prefix is one more digit. */
  lemma PrefixSnoc(bs: seq<int8>, i: nat)
    requires i < |bs|
    ensures BigFromBytes(bs[..i + 1]) == BigFromBytes(bs[..i]) * TWO_8 + Unsigned8(bs[i])
  {
    assert bs[..i + 1][..i] == bs[..i];
  }

  /**
   * The low n bytes of v's two's complement, most significant first: the
   * bytes `(byte) (v >> 8 * (n - 1))`, ..., `(byte) v`.
   */
  function TwosBytes(v: int, n: nat): (r: seq<int8>)
    ensures |r| == n
    decreases n
  {
    if n == 0 then [] else TwosBytes(v / TWO_8, n - 1) + [Wrap8(v)]
  }

  /** The n two's-complement bytes of v read back unsigned: v modulo 2^(8n). */
  lemma {:induction false} TwosBytesValue(v: int, n: nat)
    ensures BigFromBytes(TwosBytes(v, n)) == v % Pow2(8 * n)
    decreases n
  {
    if n > 0 {
      var p := Pow2(8 * (n - 1));
      var high := TwosBytes(v / TWO_8, n - 1);
      TwosBytesValue(v / TWO_8, n - 1);
      BigFromBytesSnoc(high, Wrap8(v));
      assert TwosBytes(v, n) == high + [Wrap8(v)];
      Pow2Of8();
      Pow2Add(8, 8 * (n - 1));
      assert 8 * n == 8 + 8 * (n - 1);
      assert Pow2(8 * n) == TWO_8 * p;
      ModSplit(v, TWO_8, p);
      assert Unsigned8(Wrap8(v)) == v % TWO_8 by {
        ModModMultiple(v, TWO_8, 1);
      }
      calc {
        BigFromBytes(TwosBytes(v, n));
        BigFromBytes(high) * TWO_8 + Unsigned8(Wrap8(v));
        TWO_8 * ((v / TWO_8) % p) + v % TWO_8;
        v % (TWO_8 * p);
      }
    }
  }

  /** Reading bytes unsigned and writing the same number of bytes back gives the bytes. */
  lemma {:induction false} TwosBytesOfBigFromBytes(bs: seq<int8>)
    ensures TwosBytes(BigFromBytes(bs), |bs|) == bs
  {
    if bs != [] {
      var n := |bs| - 1;
      var p, b := bs[..n], bs[n];
      assert bs == p + [b];
      var v := BigFromBytes(bs);
      assert v == BigFromBytes(p) * TWO_8 + Unsigned8(b);
      DivModUnique(v, TWO_8, BigFromBytes(p), Unsigned8(b));
      WrapToCongruent(v, b, TWO_8);
      WrapToInRange(b, TWO_8);
      TwosBytesOfBigFromBytes(p);
    }
  }

  /** The bytes depend only on v modulo 2^(8n). */
  lemma TwosBytesCongruent(v: int, w: int, n: nat)
    requires v % Pow2(8 * n) == w % Pow2(8 * n)
    ensures TwosBytes(v, n) == TwosBytes(w, n)
  {
    TwosBytesValue(v, n);
    TwosBytesValue(w, n);
    TwosBytesOfBigFromBytes(TwosBytes(v, n));
    TwosBytesOfBigFromBytes(TwosBytes(w, n));
  }

  /** The a + b low bytes are the a bytes above the b low bytes, then those. */
  lemma {:induction false} TwosBytesSplit(v: int, a: nat, b: nat)
    ensures TwosBytes(v, a + b) == TwosBytes(v / Pow2(8 * b), a) + TwosBytes(v, b)
    decreases b
  {
    if b == 0 {
      assert v / Pow2(0) == v;
    } else {
      TwosBytesSplit(v / TWO_8, a, b - 1);
      Pow2Of8();
      Pow2Add(8, 8 * (b - 1));
      assert 8 * b == 8 + 8 * (b - 1);
      DivDiv(v, TWO_8, Pow2(8 * (b - 1)));
      assert TwosBytes(v, a + b) == TwosBytes(v / TWO_8, a + (b - 1)) + [Wrap8(v)];
    }
  }

  /** The high bytes of zero are zero bytes. */
  lemma {:induction false} TwosBytesOfZero(n: nat)
    ensures TwosBytes(0, n) == Zeros(n)
  {
    if n > 0 {
      TwosBytesOfZero(n - 1);
      assert Wrap8(0) == 0 by { WrapToInRange(0, TWO_8); }
    }
  }

  function Zeros(n: nat): (r: seq<int8>)
    ensures |r| == n && forall i :: 0 <= i < n ==> r[i] == 0
  {
    seq(n, _ => 0)
  }

  // ---------------------------------------------------------------------------
  // Ints and longs

  /** `intToBytes`: the four bytes of an int, big-endian, by arithmetic shifts. */
  function IntToBytes(v: int32): (r: seq<int8>)
    ensures r == TwosBytes(v, 4)
    ensures |r| == 4 && BigFromBytes(r) == Unsigned32(v)
  {
    FourBytes(v);
    TwosBytesValue(v, 4);
    Pow2Constants();
    assert Pow2(8 * 4) == TWO_32;
    [Wrap8(v / 0x100_0000), Wrap8(v / 0x1_0000), Wrap8(v / 0x100), Wrap8(v)]
  }

  /** `longToBytes`: the eight bytes of a long, big-endian. */
  function LongToBytes(v: int64): (r: seq<int8>)
    ensures r == TwosBytes(v, 8)
    ensures |r| == 8 && BigFromBytes(r) == Unsigned64(v)
  {
    EightBytes(v);
    TwosBytesValue(v, 8);
    Pow2Constants();
    assert Pow2(8 * 8) == TWO_64;
    [Wrap8(v / 0x100_0000_0000_0000), Wrap8(v / 0x1_0000_0000_0000),
     Wrap8(v / 0x100_0000_0000), Wrap8(v / 0x1_0000_0000)] +
    [Wrap8(v / 0x100_0000), Wrap8(v / 0x1_0000), Wrap8(v / 0x100), Wrap8(v)]
  }

  /** Two bytes, written out. */
  lemma TwoBytes(v: int)
    ensures TwosBytes(v, 2) == [Wrap8(v / 0x100), Wrap8(v)]
  {
    assert TwosBytes(v, 2) == TwosBytes(v / TWO_8, 1) + [Wrap8(v)];
    assert TwosBytes(v / TWO_8, 1) == [] + [Wrap8(v / TWO_8)];
  }

  /** Four bytes: the two above 2^16, then the two below. */
  lemma FourBytes(v: int)
    ensures TwosBytes(v, 4) == [Wrap8(v / 0x100_0000), Wrap8(v / 0x1_0000), Wrap8(v / 0x100), Wrap8(v)]
  {
    TwosBytesSplit(v, 2, 2);
    Pow2Constants();
    assert Pow2(8 * 2) == TWO_16;
    TwoBytes(v);
    TwoBytes(v / TWO_16);
    DivDiv(v, TWO_16, TWO_8);
  }

  /** Eight bytes: the four above 2^32, then the four below. */
  lemma EightBytes(v: int)
    ensures TwosBytes(v, 8) ==
      [Wrap8(v / 0x100_0000_0000_0000), Wrap8(v / 0x1_0000_0000_0000),
       Wrap8(v / 0x100_0000_0000), Wrap8(v / 0x1_0000_0000)] +
      [Wrap8(v / 0x100_0000), Wrap8(v / 0x1_0000), Wrap8(v / 0x100), Wrap8(v)]
  {
    var hi := v / TWO_32;
    TwosBytesSplit(v, 4, 4);
    Pow2Constants();
    assert Pow2(8 * 4) == TWO_32;
    assert TwosBytes(v, 8) == TwosBytes(hi, 4) + TwosBytes(v, 4);
    FourBytes(v);
    FourBytes(hi);
    DivDiv(v, TWO_32, 0x100_0000);
    DivDiv(v, TWO_32, TWO_16);
    DivDiv(v, TWO_32, TWO_8);
    assert TwosBytes(hi, 4) ==
      [Wrap8(v / 0x100_0000_0000_0000), Wrap8(v / 0x1_0000_0000_0000), Wrap8(v / 0x100_0000_0000), Wrap8(hi)];
    assert hi == v / 0x1_0000_0000;
  }

  /** The unsigned reading of up to four bytes, digit by digit. */
  lemma BigFromBytes4(bs: seq<int8>)
    requires |bs| <= 4
    ensures |bs| == 1 ==> BigFromBytes(bs) == Unsigned8(bs[0])
    ensures |bs| == 2 ==> BigFromBytes(bs) == Unsigned8(bs[0]) * 0x100 + Unsigned8(bs[1])
    ensures |bs| == 3 ==>
      BigFromBytes(bs) == Unsigned8(bs[0]) * 0x1_0000 + Unsigned8(bs[1]) * 0x100 + Unsigned8(bs[2])
    ensures |bs| == 4 ==>
      BigFromBytes(bs) == Unsigned8(bs[0]) * 0x100_0000 + Unsigned8(bs[1]) * 0x1_0000
        + Unsigned8(bs[2]) * 0x100 + Unsigned8(bs[3])
  {
    if |bs| >= 1 {
      assert BigFromBytes(bs[..1]) == Unsigned8(bs[0]) by {
        assert bs[..1] == [] + [bs[0]];
        BigFromBytesSnoc([], bs[0]);
      }
    }
    if |bs| >= 2 {
      assert bs[..2] == bs[..1] + [bs[1]];
      BigFromBytesSnoc(bs[..1], bs[1]);
    }
    if |bs| >= 3 {
      assert bs[..3] == bs[..2] + [bs[2]];
      BigFromBytesSnoc(bs[..2], bs[2]);
    }
    if |bs| == 4 {
      assert bs == bs[..3] + [bs[3]];
      BigFromBytesSnoc(bs[..3], bs[3]);
    }
    assert |bs| == 1 ==> bs == bs[..1];
    assert |bs| == 2 ==> bs == bs[..2];
    assert |bs| == 3 ==> bs == bs[..3];
  }

  /**
   * `intFromBytes`: under four bytes, the unsigned big-endian value; from four
   * bytes on, the last four, the first of them carrying the sign. The `|` of
   * the shifted fields is written `+`, as the fields' bits do not overlap.
   */
  function IntFromBytes(bs: seq<int8>): (r: int32)
    ensures |bs| < 4 ==> r == BigFromBytes(bs)
    ensures |bs| >= 4 ==> r == Wrap32(BigFromBytes(bs[|bs| - 4..]))
  {
    var len := |bs|;
    BigFromBytes4(if len >= 4 then bs[len - 4..] else bs);
    if len == 0 then 0
    else if len == 1 then Unsigned8(bs[0])
    else if len == 2 then Unsigned8(bs[0]) * 0x100 + Unsigned8(bs[1])
    else if len == 3 then Unsigned8(bs[0]) * 0x1_0000 + Unsigned8(bs[1]) * 0x100 + Unsigned8(bs[2])
    else
      var top: int := bs[len - 4];
      var low := Unsigned8(bs[len - 3]) * 0x1_0000 + Unsigned8(bs[len - 2]) * 0x100 + Unsigned8(bs[len - 1]);
      SignedTopByte(bs[len - 4], low);
      var r := top * 0x100_0000 + low;
      r
  }

  /** A signed top byte above three unsigned bytes is the 32-bit narrowing of the unsigned reading. */
  lemma SignedTopByte(b: int8, low: int)
    requires 0 <= low < 0x100_0000
    ensures -TWO_31 <= b * 0x100_0000 + low < TWO_31
    ensures b * 0x100_0000 + low == Wrap32(Unsigned8(b) * 0x100_0000 + low)
  {
    var r := b * 0x100_0000 + low;
    var u := Unsigned8(b) * 0x100_0000 + low;
    if b >= 0 {
      DivModUnique(b, TWO_8, 0, b);
    } else {
      DivModUnique(b, TWO_8, -1, b + TWO_8);
      assert u == r + TWO_32;
      ModAddMultiple(r, TWO_32, 1);
    }
    WrapToCongruent(r, u, TWO_32);
    WrapToInRange(r, TWO_32);
  }

  /** Decoding the encoding of an int gives the int back. */
  lemma IntRoundTrip(v: int32)
    ensures IntFromBytes(IntToBytes(v)) == v
  {
    var bs := IntToBytes(v);
    assert bs[|bs| - 4..] == bs;
    WrapToCongruent(Unsigned32(v), v, TWO_32);
    Wrap32Id(v);
  }

  /** Encoding the decoded value of four or more bytes gives their last four. */
  lemma IntBytesRoundTrip(bs: seq<int8>)
    requires |bs| >= 4
    ensures IntToBytes(IntFromBytes(bs)) == bs[|bs| - 4..]
  {
    var t := bs[|bs| - 4..];
    Pow2Constants();
    assert Pow2(8 * 4) == TWO_32;
    TwosBytesCongruent(IntFromBytes(bs), BigFromBytes(t), 4);
    TwosBytesOfBigFromBytes(t);
  }

  /** The eight-byte branch of `longFromBytes`: the fields of the last eight bytes, the top shift wrapping. */
  function LongFromLastEight(bs: seq<int8>): (r: int64)
    requires |bs| >= 8
    ensures r == Wrap64(BigFromBytes(bs[|bs| - 8..]))
  {
    var len := |bs|;
    var t := bs[len - 8..];
    BigFromBytes8(t);
    Wrap64(Unsigned8(bs[len - 8]) * 0x100_0000_0000_0000 + Unsigned8(bs[len - 7]) * 0x1_0000_0000_0000
      + Unsigned8(bs[len - 6]) * 0x100_0000_0000 + Unsigned8(bs[len - 5]) * 0x1_0000_0000
      + Unsigned8(bs[len - 4]) * 0x100_0000 + Unsigned8(bs[len - 3]) * 0x1_0000
      + Unsigned8(bs[len - 2]) * 0x100 + Unsigned8(bs[len - 1]))
  }

  lemma BigFromBytes8(t: seq<int8>)
    requires |t| == 8
    ensures BigFromBytes(t) ==
      Unsigned8(t[0]) * 0x100_0000_0000_0000 + Unsigned8(t[1]) * 0x1_0000_0000_0000
      + Unsigned8(t[2]) * 0x100_0000_0000 + Unsigned8(t[3]) * 0x1_0000_0000
      + Unsigned8(t[4]) * 0x100_0000 + Unsigned8(t[5]) * 0x1_0000
      + Unsigned8(t[6]) * 0x100 + Unsigned8(t[7])
  {
    BigFromBytes4(t[..4]);
    assert t[..5] == t[..4] + [t[4]];
    BigFromBytesSnoc(t[..4], t[4]);
    assert t[..6] == t[..5] + [t[5]];
    BigFromBytesSnoc(t[..5], t[5]);
    assert t[..7] == t[..6] + [t[6]];
    BigFromBytesSnoc(t[..6], t[6]);
    assert t == t[..7] + [t[7]];
    BigFromBytesSnoc(t[..7], t[7]);
  }

  /**
   * `longFromBytes`: from eight bytes on, the last eight; under eight, the
   * unsigned big-endian accumulation, one byte per step.
   */
  method LongFromBytes(bs: seq<int8>) returns (r: int64)
    ensures |bs| >= 8 ==> r == Wrap64(BigFromBytes(bs[|bs| - 8..]))
    ensures |bs| < 8 ==> r == BigFromBytes(bs)
  {
    var len := |bs|;
    if len >= 8 {
      return LongFromLastEight(bs);
    }
    if len == 0 {
      return 0;
    }
    assert bs[..1] == [] + [bs[0]];
    BigFromBytesSnoc([], bs[0]);
    var acc: int64 := Unsigned8(bs[0]);
    var i := 1;
    Pow2Constants();
    assert 8 * i == 8;
    while i < len
      invariant 1 <= i <= len
      invariant acc == BigFromBytes(bs[..i])
      invariant acc < Pow2(8 * i)
    {
      PrefixSnoc(bs, i);
      BigFromBytesBound(bs[..i + 1]);
      Pow2Constants();
      Pow2Monotone(8 * (i + 1), 63);
      acc := acc * 0x100 + Unsigned8(bs[i]);
      i := i + 1;
    }
    assert bs[..i] == bs;
    return acc;
  }

  /** Decoding the encoding of a long gives the long back. */
  lemma LongRoundTrip(v: int64)
    ensures Wrap64(BigFromBytes(LongToBytes(v))) == v
  {
    var bs := LongToBytes(v);
    WrapToCongruent(Unsigned64(v), v, TWO_64);
    Wrap64Id(v);
  }

  /** Encoding the decoded value of eight or more bytes gives their last eight. */
  lemma LongBytesRoundTrip(bs: seq<int8>)
    requires |bs| >= 8
    ensures LongToBytes(Wrap64(BigFromBytes(bs[|bs| - 8..]))) == bs[|bs| - 8..]
  {
    var t := bs[|bs| - 8..];
    Pow2Constants();
    assert Pow2(8 * 8) == TWO_64;
    TwosBytesCongruent(Wrap64(BigFromBytes(t)), BigFromBytes(t), 8);
    TwosBytesOfBigFromBytes(t);
  }

  // ---------------------------------------------------------------------------
  // Big integers

  /** `BigInteger.toByteArray`: the shortest two's complement, at least one byte. */
  function ToByteArray(v: int): (r: seq<int8>)
  {
    TwosBytes(v, SignedBitLength(v) / 8 + 1)
  }

  /** A non-negative value fits its minimal encoding with the sign bit clear. */
  lemma ToByteArrayHolds(v: nat)
    ensures v < Pow2(8 * |ToByteArray(v)|)
    ensures v < Pow2(8 * |ToByteArray(v)| - 1)
  {
    var k := |ToByteArray(v)|;
    BitLengthBounds(v);
    Pow2Monotone(BitLength(v), 8 * k - 1);
    Pow2Monotone(8 * k - 1, 8 * k);
  }

  /**
   * `bigToBytes(len, v)`: the minimal encoding cut to its last len bytes, or
   * padded in front with zero bytes. A negative len fails as `copyOfRange`
   * does with an IllegalArgumentException.
   */
  function BigToBytes(len: int32, v: int): (r: Result<seq<int8>>)
    ensures r.Ok? <==> len >= 0
    ensures r.Ok? ==> |r.value| == len
    ensures r.Ok? && v >= 0 ==> r.value == TwosBytes(v, len)
  {
    var bytes := ToByteArray(v);
    if |bytes| == len then
      Ok(bytes)
    else if |bytes| > len then
      if len < 0 then Err(IllegalArgument)
      else
        TwosBytesSplit(v, |bytes| - len, len);
        Ok(bytes[|bytes| - len..])
    else
      var pad := len - |bytes|;
      PaddedBytes(v, pad);
      Ok(Zeros(pad) + bytes)
  }

  /** Zero bytes in front of a non-negative value's minimal encoding extend its two's complement. */
  lemma PaddedBytes(v: int, pad: nat)
    ensures v >= 0 ==> Zeros(pad) + ToByteArray(v) == TwosBytes(v, pad + |ToByteArray(v)|)
  {
    if v >= 0 {
      var bytes := ToByteArray(v);
      ToByteArrayHolds(v);
      TwosBytesSplit(v, pad, |bytes|);
      DivModUnique(v, Pow2(8 * |bytes|), 0, v);
      TwosBytesOfZero(pad);
    }
  }

  /** Decoding a non-negative value's fixed-length encoding gives the value modulo 2^(8 len). */
  lemma BigRoundTrip(len: int32, v: nat)
    requires len >= 0
    ensures BigFromBytes(BigToBytes(len, v).value) == v % Pow2(8 * len)
  {
    TwosBytesValue(v, len);
  }

  /** Encoding an unsigned reading at the original length gives the original bytes. */
  lemma BigBytesRoundTrip(bs: seq<int8>)
    requires |bs| < TWO_31
    ensures BigToBytes(|bs|, BigFromBytes(bs)) == Ok(bs)
  {
    TwosBytesOfBigFromBytes(bs);
  }

  /**
   * `trim`: the last `sizeBytes` bytes (`size.getBytes()`, a parameter here).
   * `copyOfRange` fails for a negative start (index out of bounds) and for a
   * start past the end (illegal argument).
   */
  function Trim(bytes: seq<int8>, sizeBytes: int32): (r: Result<seq<int8>>)
    ensures r.Ok? <==> 0 <= sizeBytes <= |bytes|
    ensures r.Ok? ==> r.value == bytes[|bytes| - sizeBytes..]
  {
    var length := |bytes|;
    if sizeBytes == length then Ok(bytes)
    else if length - sizeBytes < 0 then Err(IndexOutOfBounds)
    else if length - sizeBytes > length then Err(IllegalArgument)
    else Ok(bytes[length - sizeBytes..])
  }
}
