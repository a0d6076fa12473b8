// The capacity descriptor `HashSize`: the number of distinct hash values a
// hasher produces, with the derived fields the library consults when it folds
// a value into that range.

module HashSizes {
  import opened JavaMath
  import opened Results

  /**
   * The fields every constructor computes from the capacity `bigSize`.
   * `bits` is the bit length of `bigSize - 1`; the int and long fields are
   * the narrowed capacity and the narrowed capacity minus one.
   */
  datatype HashSize = HashSize(
    bigSize: int, bits: nat, powerOfTwo: bool, mask: int,
    intSized: bool, intCapacity: bool, intSize: int32, intMask: int32,
    longSized: bool, longCapacity: bool, longSize: int64, longMask: int64)
  {
    /** A descriptor as the constructors leave it: a positive capacity and its derived fields. */
    predicate Valid()
    {
      bigSize > 0 && this == OfBig(bigSize)
    }

    /** `asInt`: the capacity as an int, or an ArithmeticException unless int-sized. */
    function AsInt(): (r: Result<int32>)
      requires Valid()
      ensures r.Ok? <==> bigSize <= TWO_31
      ensures r.Ok? ==> r.value % TWO_32 == bigSize % TWO_32
    {
      FlagsRange(this);
      NarrowedFields(this);
      if !intSized then Err(Arithmetic) else Ok(intSize)
    }

    /** `asLong`: the capacity as a long, or an ArithmeticException unless long-sized. */
    function AsLong(): (r: Result<int64>)
      requires Valid()
      ensures r.Ok? <==> bigSize <= TWO_63
      ensures r.Ok? ==> r.value % TWO_64 == bigSize % TWO_64
    {
      FlagsRange(this);
      NarrowedFields(this);
      if !longSized then Err(Arithmetic) else Ok(longSize)
    }

    /**
     * `asInt` as its documentation describes it: the capacity itself, which is
     * positive, and an ArithmeticException whenever the capacity is not an int.
     */
    function AsPositiveInt(): (r: Result<int32>)
      requires Valid()
      ensures r.Ok? <==> bigSize < TWO_31
      ensures r.Ok? ==> r.value == bigSize && r.value > 0
    {
      FlagsRange(this);
      if !intSized || bigSize == TWO_31 then Err(Arithmetic)
      else
        Wrap32Id(bigSize);
        Ok(intSize)
    }

    /** `asLong` as documented: the positive capacity, or an ArithmeticException. */
    function AsPositiveLong(): (r: Result<int64>)
      requires Valid()
      ensures r.Ok? <==> bigSize < TWO_63
      ensures r.Ok? ==> r.value == bigSize && r.value > 0
    {
      FlagsRange(this);
      if !longSized || bigSize == TWO_63 then Err(Arithmetic)
      else
        Wrap64Id(bigSize);
        Ok(longSize)
    }

    /** `mapInt`, exactly as the source computes it; without int capacity the value passes through. */
    function MapInt(value: int32): (r: int32)
      requires Valid()
      ensures !intCapacity ==> r == value
    {
      if !intCapacity then value
      else if powerOfTwo then And32(value, intMask)
      else if intSized && value >= 0 then
        NonPowerSizes(this);
        JavaRem(value, intSize)
      else
        IntCapacitySizes(this);
        Wrap32(JavaRem(TWO_32 - value, longSize))
    }

    /**
     * `mapInt` with its last branch reducing the value itself, as `mapLong`
     * and `mapBig` do, rather than 2^32 minus the value.
     */
    function MapIntResidue(value: int32): (r: int32)
      requires Valid()
      ensures intCapacity ==> Unsigned32(r) == value % bigSize
      ensures !intCapacity ==> r == value
    {
      if !intCapacity then value
      else if powerOfTwo then
        IntMaskResidue(this, value);
        And32(value, intMask)
      else if intSized && value >= 0 then
        NonPowerSizes(this);
        JavaRemNonNegative(value, intSize);
        IntCapacitySizes(this);
        SmallResidue32(value % bigSize, bigSize);
        JavaRem(value, intSize)
      else
        IntCapacitySizes(this);
        SmallResidue32(value % bigSize, bigSize);
        Wrap32(value % bigSize)
    }

    /**
     * `mapLong`; without long capacity the value passes through. The source's
     * non-short-circuit `&` has no side effect here.
     */
    function MapLong(value: int64): (r: int64)
      requires Valid()
      ensures !longCapacity ==> r == value
    {
      if !longCapacity then value
      else if powerOfTwo then And64(value, longMask)
      else if longSized && value >= 0 then
        NonPowerSizes(this);
        JavaRem(value, longSize)
      else Wrap64(value % bigSize)
    }

    /** `mapBig`: a mask for powers of two, `BigInteger.mod` otherwise. */
    function MapBig(value: int): int
      requires Valid()
    {
      MaskNonNegative(this);
      if powerOfTwo then BigAndMask(value, mask) else value % bigSize
    }

    /** `compareTo`: the sign of the difference of the capacities. */
    function CompareTo(that: HashSize): (r: int)
      ensures r < 0 <==> bigSize < that.bigSize
      ensures r == 0 <==> bigSize == that.bigSize
      ensures r > 0 <==> bigSize > that.bigSize
    {
      if bigSize < that.bigSize then -1 else if bigSize == that.bigSize then 0 else 1
    }

    /** `equals`; `None` is null or an object of another class. */
    function Equals(obj: Option<HashSize>): bool
    {
      obj.Some? && bigSize == obj.value.bigSize
    }
  }

  // ---------------------------------------------------------------------------
  // The three constructors

  /** `HashSize(BigInteger)`. A zero capacity is reachable only through `fromByteLength`'s overflow. */
  function OfBig(size: nat): HashSize
  {
    var bits := SignedBitLength(size - 1);
    var powerOfTwo := BitCount(size) == 1;
    var intSize := Wrap32(size);
    var longSize := Wrap64(size);
    HashSize(size, bits, powerOfTwo, if powerOfTwo then size - 1 else Pow2(bits) - 1,
      bits < 32, bits <= 32, intSize, Wrap32(intSize - 1),
      bits < 64, bits <= 64, longSize, Wrap64(longSize - 1))
  }

  /** `HashSize(int)`, through leading zeros and the highest one bit. */
  function OfInt(size: int32): HashSize
    requires size > 0
  {
    var bits := 32 - NumberOfLeadingZeros32(size - 1);
    var powerOfTwo := HighestOneBit32(size) == size;
    HashSize(size, bits, powerOfTwo, (if powerOfTwo then size else Pow2(bits)) - 1,
      true, true, size, size - 1, true, true, size, size - 1)
  }

  /** `HashSize(long)`. */
  function OfLong(size: int64): HashSize
    requires size > 0
  {
    var bits := 64 - NumberOfLeadingZeros64(size - 1);
    var powerOfTwo := HighestOneBit64(size) == size;
    var intSize := Wrap32(size);
    HashSize(size, bits, powerOfTwo, (if powerOfTwo then size else Pow2(bits)) - 1,
      bits < 32, bits <= 32, intSize, Wrap32(intSize - 1), true, true, size, size - 1)
  }

  /** `highestOneBit(s) == s` is `bitCount() == 1` for a positive s. */
  lemma HighestOneBitIsPowerOfTwo(s: nat)
    requires s > 0
    ensures (Pow2(BitLength(s) - 1) == s) <==> BitCount(s) == 1
  {
    BitLengthBounds(s);
    BitCountOne(s);
  }

  /** The int constructor computes the same descriptor as the BigInteger one. */
  lemma OfIntAgrees(size: int32)
    requires size > 0
    ensures OfInt(size) == OfBig(size)
    ensures OfInt(size).Valid()
  {
    var a, b := OfInt(size), OfBig(size);
    SharedFields(size);
    assert a.bits == b.bits <= 31;
    Wrap32Id(size);
    Wrap32Id(size - 1);
    Wrap64Id(size);
    Wrap64Id(size - 1);
  }

  /** The long constructor computes the same descriptor as the BigInteger one. */
  lemma OfLongAgrees(size: int64)
    requires size > 0
    ensures OfLong(size) == OfBig(size)
    ensures OfLong(size).Valid()
  {
    var a, b := OfLong(size), OfBig(size);
    SharedFields(size);
    assert a.bits == b.bits <= 63;
    Wrap64Id(size);
    Wrap64Id(size - 1);
  }

  /** The bit length and the power-of-two test of the fixed-width constructors. */
  lemma SharedFields(size: int64)
    requires size > 0
    ensures 64 - NumberOfLeadingZeros64(size - 1) == OfBig(size).bits
    ensures INT_MIN <= size <= INT_MAX ==> 32 - NumberOfLeadingZeros32(size - 1) == OfBig(size).bits
    ensures (HighestOneBit64(size) == size) == OfBig(size).powerOfTwo
    ensures INT_MIN <= size <= INT_MAX ==> (HighestOneBit32(size) == size) == OfBig(size).powerOfTwo
  {
    HighestOneBitIsPowerOfTwo(size);
  }

  // ---------------------------------------------------------------------------
  // What the derived fields mean

  /** `bits` is the least b with capacity <= 2^b, and `mask` is 2^bits - 1. */
  lemma BitsMeaning(s: HashSize)
    requires s.Valid()
    ensures forall b: nat {:trigger Pow2(b)} :: s.bigSize <= Pow2(b) <==> s.bits <= b
    ensures s.bigSize <= Pow2(s.bits)
    ensures s.bits > 0 ==> Pow2(s.bits - 1) < s.bigSize
    ensures s.powerOfTwo <==> s.bigSize == Pow2(s.bits)
    ensures s.mask == Pow2(s.bits) - 1 && s.mask >= 0
  {
    forall b: nat ensures s.bigSize <= Pow2(b) <==> s.bits <= b {
      BitLengthLeast(s.bigSize - 1, b);
    }
    BitLengthBounds(s.bigSize - 1);
    BitCountOne(s.bigSize);
    BitLengthBounds(s.bigSize);
    var b := BitLength(s.bigSize);
    if s.powerOfTwo {
      BitLengthOfLowMask(b - 1);
    } else if s.bigSize == Pow2(s.bits) {
      BitLengthOfPow2(s.bits);
    }
  }

  /**
   * The flags compare the capacity with the widths: int-sized up to 2^31,
   * int capacity up to 2^32, long-sized up to 2^63, long capacity up to 2^64;
   * the narrowed sizes and masks are the capacity and capacity - 1 modulo the width.
   */
  lemma FlagsMeaning(s: HashSize)
    requires s.Valid()
    ensures s.intSized <==> s.bigSize <= TWO_31
    ensures s.intCapacity <==> s.bigSize <= TWO_32
    ensures s.longSized <==> s.bigSize <= TWO_63
    ensures s.longCapacity <==> s.bigSize <= TWO_64
    ensures s.intSized ==> s.intCapacity && s.longSized
    ensures s.longSized ==> s.longCapacity
    ensures s.intCapacity ==> s.longSized
    ensures s.intSize % TWO_32 == s.bigSize % TWO_32
    ensures s.intMask % TWO_32 == (s.bigSize - 1) % TWO_32
    ensures s.longSize % TWO_64 == s.bigSize % TWO_64
    ensures s.longMask % TWO_64 == (s.bigSize - 1) % TWO_64
  {
    FlagsRange(s);
    NarrowedFields(s);
  }

  /** The four flags against the widths. */
  lemma FlagsRange(s: HashSize)
    requires s.Valid()
    ensures s.intSized <==> s.bigSize <= TWO_31
    ensures s.intCapacity <==> s.bigSize <= TWO_32
    ensures s.longSized <==> s.bigSize <= TWO_63
    ensures s.longCapacity <==> s.bigSize <= TWO_64
  {
    var n := s.bigSize - 1;
    assert s.bits == BitLength(n);
    Pow2Constants();
    BitLengthLeast(n, 31);
    BitLengthLeast(n, 32);
    BitLengthLeast(n, 63);
    BitLengthLeast(n, 64);
  }

  /** The narrowed sizes and masks are the capacity and the capacity minus one, modulo the width. */
  lemma NarrowedFields(s: HashSize)
    requires s.Valid()
    ensures s.intSize % TWO_32 == s.bigSize % TWO_32
    ensures s.intMask % TWO_32 == (s.bigSize - 1) % TWO_32
    ensures s.longSize % TWO_64 == s.bigSize % TWO_64
    ensures s.longMask % TWO_64 == (s.bigSize - 1) % TWO_64
  {
    var c := s.bigSize;
    assert s.intSize == Wrap32(c) && s.intMask == Wrap32(s.intSize - 1);
    assert s.longSize == Wrap64(c) && s.longMask == Wrap64(s.longSize - 1);
    CongruentApart(s.intSize, c, TWO_32);
    ModAddMultiple(c - 1, TWO_32, s.intSize / TWO_32 - c / TWO_32);
    CongruentApart(s.longSize, c, TWO_64);
    ModAddMultiple(c - 1, TWO_64, s.longSize / TWO_64 - c / TWO_64);
  }

  /** Within int capacity the long fields hold the capacity exactly. */
  lemma IntCapacitySizes(s: HashSize)
    requires s.Valid() && s.intCapacity
    ensures s.bigSize <= TWO_32 && s.longSized && s.longSize == s.bigSize
  {
    FlagsRange(s);
    Wrap64Id(s.bigSize);
  }

  /** A capacity of one needs no bits, although `getBits` is documented as always positive. */
  lemma CapacityOneHasNoBits()
    ensures OfBig(1).Valid() && OfBig(1).bits == 0 && OfBig(1).powerOfTwo
  {
    assert BitCount(1) == 1;
  }

  /** A non-power of two within the signed range fits its own narrowed size exactly. */
  lemma NonPowerSizes(s: HashSize)
    requires s.Valid() && !s.powerOfTwo
    ensures s.intSized ==> s.bigSize < TWO_31 && s.intSize == s.bigSize
    ensures s.longSized ==> s.bigSize < TWO_63 && s.longSize == s.bigSize
  {
    Pow2Constants();
    BitsMeaning(s);
    FlagsMeaning(s);
    if s.intSized {
      assert s.bigSize != Pow2(31) by {
        if s.bigSize == Pow2(31) { BitLengthOfLowMask(31); }
      }
      Wrap32Id(s.bigSize);
    }
    if s.longSized {
      assert s.bigSize != Pow2(63) by {
        if s.bigSize == Pow2(63) { BitLengthOfLowMask(63); }
      }
      Wrap64Id(s.bigSize);
    }
  }

  /** Within int capacity, the int mask of a power of two keeps the value modulo the capacity. */
  lemma IntMaskResidue(s: HashSize, value: int32)
    requires s.Valid() && s.intCapacity && s.powerOfTwo
    ensures Unsigned32(And32(value, s.intMask)) == value % s.bigSize
  {
    IntMaskFields(s);
    LowMaskResidue32(value, s.intMask, s.bits);
  }

  /** Within int capacity, the int mask of a power of two holds its bits ones in its low 32 bits. */
  lemma IntMaskFields(s: HashSize)
    requires s.Valid() && s.intCapacity && s.powerOfTwo
    ensures s.bits <= 32 && s.bigSize == Pow2(s.bits) && s.intMask % TWO_32 == Pow2(s.bits) - 1
  {
    PowerOfTwoFields(s);
    NarrowedFields(s);
    Pow2Of32();
    LowOnesInWidth(s.bits, s.intMask, 32);
  }

  /** An int whose low 32 bits are k ones keeps the residue modulo 2^k under `&`. */
  lemma LowMaskResidue32(value: int32, mask: int32, k: nat)
    requires k <= 32 && mask % TWO_32 == Pow2(k) - 1
    ensures Unsigned32(And32(value, mask)) == value % Pow2(k)
  {
    And32LowMask(value, mask, k);
  }

  /** Within long capacity, the long mask of a power of two keeps the value modulo the capacity. */
  lemma LongMaskResidue(s: HashSize, value: int64)
    requires s.Valid() && s.longCapacity && s.powerOfTwo
    ensures Unsigned64(And64(value, s.longMask)) == value % s.bigSize
  {
    LongMaskFields(s);
    LowMaskResidue64(value, s.longMask, s.bits);
  }

  /** Within long capacity, the long mask of a power of two holds its bits ones in its low 64 bits. */
  lemma LongMaskFields(s: HashSize)
    requires s.Valid() && s.longCapacity && s.powerOfTwo
    ensures s.bits <= 64 && s.bigSize == Pow2(s.bits) && s.longMask % TWO_64 == Pow2(s.bits) - 1
  {
    PowerOfTwoFields(s);
    NarrowedFields(s);
    Pow2Of64();
    LowOnesInWidth(s.bits, s.longMask, 64);
  }

  /** A long whose low 64 bits are k ones keeps the residue modulo 2^k under `&`. */
  lemma LowMaskResidue64(value: int64, mask: int64, k: nat)
    requires k <= 64 && mask % TWO_64 == Pow2(k) - 1
    ensures Unsigned64(And64(value, mask)) == value % Pow2(k)
  {
    And64LowMask(value, mask, k);
  }

  /** A value congruent to 2^k - 1 modulo a wider power of two 2^w has that residue exactly. */
  lemma LowOnesInWidth(k: nat, mask: int, w: nat)
    requires k <= w && mask % Pow2(w) == (Pow2(k) - 1) % Pow2(w)
    ensures mask % Pow2(w) == Pow2(k) - 1
  {
    Pow2Monotone(k, w);
    DivModUnique(Pow2(k) - 1, Pow2(w), 0, Pow2(k) - 1);
  }

  /** The mask is never negative. */
  lemma MaskNonNegative(s: HashSize)
    requires s.Valid()
    ensures s.mask >= 0
  {
  }

  /** A power-of-two capacity is 2^bits. */
  lemma PowerOfTwoFields(s: HashSize)
    requires s.Valid() && s.powerOfTwo
    ensures s.bigSize == Pow2(s.bits) && s.bits == BitLength(s.bigSize - 1)
  {
    BitCountOne(s.bigSize);
    BitLengthBounds(s.bigSize);
    BitLengthOfLowMask(BitLength(s.bigSize) - 1);
  }

  /** A value in [0, c) with c <= 2^32 survives the int narrowing unchanged modulo 2^32. */
  lemma SmallResidue32(x: int, c: int)
    requires 0 <= x < c <= TWO_32
    ensures Unsigned32(Wrap32(x)) == x
  {
    DivModUnique(x, TWO_32, 0, x);
  }

  lemma SmallResidue64(x: int, c: int)
    requires 0 <= x < c <= TWO_64
    ensures Unsigned64(Wrap64(x)) == x
  {
    DivModUnique(x, TWO_64, 0, x);
  }

  // ---------------------------------------------------------------------------
  // The shared instances and the factories

  const BYTE_SIZE: HashSize := OfBig(TWO_8)
  const SHORT_SIZE: HashSize := OfBig(TWO_16)
  const INT_SIZE: HashSize := OfBig(TWO_32)
  const LONG_SIZE: HashSize := OfBig(TWO_64)

  /** The descriptor of capacity 2^k. */
  lemma OfPow2(k: nat)
    ensures OfBig(Pow2(k)).Valid()
    ensures OfBig(Pow2(k)).bits == k && OfBig(Pow2(k)).powerOfTwo
  {
    BitLengthOfLowMask(k);
    BitLengthOfPow2(k);
    BitCountOne(Pow2(k));
  }

  lemma ByteSizeFields()
    ensures BYTE_SIZE.Valid() && BYTE_SIZE.bits == 8 && BYTE_SIZE.powerOfTwo && BYTE_SIZE.intSized
  {
    Pow2Constants();
    OfPow2(8);
  }

  lemma ShortSizeFields()
    ensures SHORT_SIZE.Valid() && SHORT_SIZE.bits == 16 && SHORT_SIZE.powerOfTwo && SHORT_SIZE.intSized
  {
    Pow2Constants();
    OfPow2(16);
  }

  /** The int-wide instance: every int mask bit is set, so the int mask is -1. */
  lemma IntSizeFields()
    ensures INT_SIZE.Valid() && INT_SIZE.bits == 32 && INT_SIZE.powerOfTwo
    ensures INT_SIZE.intCapacity && !INT_SIZE.intSized && INT_SIZE.intMask == -1
  {
    Pow2Constants();
    OfPow2(32);
    assert INT_SIZE.intSize == 0 by {
      DivModUnique(TWO_32, TWO_32, 1, 0);
      Wrap32Id(0);
      WrapToCongruent(TWO_32, 0, TWO_32);
    }
    Wrap32Id(-1);
  }

  /** The long-wide instance: the long mask is -1. */
  lemma LongSizeFields()
    ensures LONG_SIZE.Valid() && LONG_SIZE.bits == 64 && LONG_SIZE.powerOfTwo
    ensures LONG_SIZE.longCapacity && !LONG_SIZE.longSized && LONG_SIZE.longMask == -1
  {
    Pow2Constants();
    OfPow2(64);
    assert LONG_SIZE.longSize == 0 by {
      DivModUnique(TWO_64, TWO_64, 1, 0);
      Wrap64Id(0);
      WrapToCongruent(TWO_64, 0, TWO_64);
    }
    Wrap64Id(-1);
  }

  /** `fromByteLength`: the shift `8 * byteLength` is int arithmetic and wraps. */
  function FromByteLength(byteLength: int32): (r: Result<HashSize>)
    ensures r.Ok? <==> byteLength > 0
    ensures byteLength == 1 ==> r == Ok(BYTE_SIZE)
    ensures byteLength == 2 ==> r == Ok(SHORT_SIZE)
    ensures byteLength == 4 ==> r == Ok(INT_SIZE)
    ensures byteLength == 8 ==> r == Ok(LONG_SIZE)
    ensures 0 < byteLength < 0x1000_0000 ==> r == FromByteLengthExact(byteLength)
    ensures 0 < byteLength < 0x1000_0000 ==> r.value.Valid() && r.value.bigSize == Pow2(8 * byteLength)
  {
    Pow2Constants();
    if byteLength <= 0 then Err(IllegalArgument)
    else if byteLength == 1 then Ok(BYTE_SIZE)
    else if byteLength == 2 then Ok(SHORT_SIZE)
    else if byteLength == 4 then Ok(INT_SIZE)
    else if byteLength == 8 then Ok(LONG_SIZE)
    else
      assert byteLength < 0x1000_0000 ==> Wrap32(8 * byteLength) == 8 * byteLength by {
        if byteLength < 0x1000_0000 {
          Wrap32Id(8 * byteLength);
        }
      }
      Ok(OfBig(ShiftLeftOne(Wrap32(8 * byteLength))))
  }

  /** `BigInteger.ONE.shiftLeft(n)`: a negative distance shifts right, leaving zero. */
  function ShiftLeftOne(n: int32): (r: nat)
    ensures n >= 0 ==> r == Pow2(n)
    ensures n < 0 ==> r == 0
  {
    if n >= 0 then Pow2(n) else 0
  }

  /** The length at which the shift distance wraps round to 8. */
  lemma FromByteLengthOverflow()
    ensures FromByteLength(0x2000_0001).Ok?
    ensures FromByteLength(0x2000_0001).value.bigSize == 256
  {
    Pow2Constants();
    DivModUnique(8 * 0x2000_0001, TWO_32, 1, 8);
    WrapToInRange(8, TWO_32);
  }

  /** `fromByteLength` with the width computed without wrapping: capacity 2^(8n) for every positive n. */
  function FromByteLengthExact(byteLength: int32): (r: Result<HashSize>)
    ensures r.Ok? <==> byteLength > 0
    ensures r.Ok? ==> r.value.Valid() && r.value.bigSize == Pow2(8 * byteLength)
    ensures r.Ok? ==> r.value.bits == 8 * byteLength
    ensures byteLength == 1 ==> r == Ok(BYTE_SIZE)
    ensures byteLength == 4 ==> r == Ok(INT_SIZE)
  {
    Pow2Constants();
    if byteLength <= 0 then Err(IllegalArgument)
    else
      OfPow2(8 * byteLength);
      Ok(OfBig(Pow2(8 * byteLength)))
  }

  /** `fromBitLength`: capacity 2^n for a positive n, the shared instance for 8, 16, 32 and 64. */
  function FromBitLength(bitLength: int32): (r: Result<HashSize>)
    ensures r.Ok? <==> bitLength > 0
    ensures r.Ok? ==> r.value.Valid() && r.value.bigSize == Pow2(bitLength)
    ensures r.Ok? ==> r.value.bits == bitLength && r.value.powerOfTwo
    ensures bitLength == 8 ==> r == Ok(BYTE_SIZE)
    ensures bitLength == 16 ==> r == Ok(SHORT_SIZE)
    ensures bitLength == 32 ==> r == Ok(INT_SIZE)
    ensures bitLength == 64 ==> r == Ok(LONG_SIZE)
  {
    Pow2Constants();
    if bitLength <= 0 then Err(IllegalArgument)
    else
      OfPow2(bitLength);
      if bitLength == 8 then Ok(BYTE_SIZE)
      else if bitLength == 16 then Ok(SHORT_SIZE)
      else if bitLength == 32 then Ok(INT_SIZE)
      else if bitLength == 64 then Ok(LONG_SIZE)
      else Ok(OfBig(ShiftLeftOne(bitLength)))
  }

  /** `fromBig`: rejects null and non-positive capacities. */
  function FromBig(size: Option<int>): (r: Result<HashSize>)
    ensures r.Ok? <==> size.Some? && size.value > 0
    ensures r.Ok? ==> r.value.Valid() && r.value.bigSize == size.value
  {
    if size.None? then Err(IllegalArgument)
    else if size.value <= 0 then Err(IllegalArgument)
    else Ok(OfBig(size.value))
  }

  /** `fromInt`: zero is INT_SIZE, a positive s is s, and a negative s is 2^32 - s. */
  function FromInt(size: int32): (r: HashSize)
    ensures r.Valid()
    ensures size == 0 ==> r == INT_SIZE
    ensures size > 0 ==> r.bigSize == size
    ensures size < 0 ==> r.bigSize == TWO_32 - size && !r.intCapacity
  {
    if size == 0 then
      IntSizeFields();
      INT_SIZE
    else if size > 0 then
      OfIntAgrees(size);
      OfInt(size)
    else
      OfLongAgrees(TWO_32 - size);
      var r := OfLong(TWO_32 - size);
      FlagsMeaning(r);
      r
  }

  /** `fromLong`: zero is LONG_SIZE, a positive s is s, and a negative s is 2^32 - s. */
  function FromLong(size: int64): (r: HashSize)
    ensures r.Valid()
    ensures size == 0 ==> r == LONG_SIZE
    ensures size > 0 ==> r.bigSize == size
    ensures size < 0 ==> r.bigSize == TWO_32 - size
  {
    if size == 0 then
      LongSizeFields();
      LONG_SIZE
    else if size > 0 then
      OfLongAgrees(size);
      OfLong(size)
    else OfBig(TWO_32 - size)
  }

  /** `fromInt(-1)` is a capacity beyond any int, not the unsigned reading 2^32 - 1. */
  lemma FromIntOfMinusOne()
    ensures FromInt(-1).bigSize == TWO_32 + 1
  {
  }

  /** `fromInt` reading a negative int unsigned, consistent with 0 standing for 2^32. */
  function FromIntUnsigned(size: int32): (r: HashSize)
    ensures r.Valid() && r.intCapacity
    ensures r.bigSize == (if size == 0 then TWO_32 else Unsigned32(size))
    ensures size >= 0 ==> r == FromInt(size)
  {
    if size == 0 then
      IntSizeFields();
      INT_SIZE
    else if size > 0 then
      OfIntAgrees(size);
      OfInt(size)
    else
      DivModUnique(size, TWO_32, -1, TWO_32 + size);
      OfLongAgrees(TWO_32 + size);
      var r := OfLong(TWO_32 + size);
      FlagsMeaning(r);
      r
  }

  /** `fromLong(-1)` is a capacity beyond int capacity, not the unsigned reading 2^64 - 1. */
  lemma FromLongOfMinusOne()
    ensures FromLong(-1).bigSize == TWO_32 + 1
    ensures !FromLong(-1).intCapacity && FromLong(-1).bigSize != TWO_64 - 1
  {
    FlagsMeaning(FromLong(-1));
  }

  /** `fromLong` reading a negative long unsigned, consistent with 0 standing for 2^64. */
  function FromLongUnsigned(size: int64): (r: HashSize)
    ensures r.Valid() && r.longCapacity
    ensures r.bigSize == (if size == 0 then TWO_64 else Unsigned64(size))
    ensures size >= 0 ==> r == FromLong(size)
  {
    if size == 0 then
      LongSizeFields();
      LONG_SIZE
    else if size > 0 then
      OfLongAgrees(size);
      OfLong(size)
    else
      DivModUnique(size, TWO_64, -1, TWO_64 + size);
      var r := OfBig(TWO_64 + size);
      FlagsMeaning(r);
      r
  }

  // ---------------------------------------------------------------------------
  // Folding


  /** For a power of two `mapInt` keeps the low bits, the value modulo the capacity. */
  lemma MapIntPowerOfTwo(s: HashSize, value: int32)
    requires s.Valid() && s.intCapacity && s.powerOfTwo
    ensures Unsigned32(s.MapInt(value)) == value % s.bigSize
  {
    IntMaskResidue(s, value);
  }

  /** For an int-sized non-power of two and a non-negative value it is `value % capacity`. */
  lemma MapIntNonNegative(s: HashSize, value: int32)
    requires s.Valid() && s.intSized && !s.powerOfTwo && value >= 0
    ensures s.MapInt(value) == value % s.bigSize
  {
    NonPowerSizes(s);
    FlagsMeaning(s);
  }

  /** Otherwise, within int capacity, it reduces 2^32 - value (not the unsigned value 2^32 + value). */
  lemma MapIntOtherwise(s: HashSize, value: int32)
    requires s.Valid() && s.intCapacity && !s.powerOfTwo && !(s.intSized && value >= 0)
    ensures Unsigned32(s.MapInt(value)) == (TWO_32 - value) % s.bigSize
  {
    FlagsMeaning(s);
    Pow2Constants();
    WrapToInRange(s.bigSize, TWO_64);
    SmallResidue32((TWO_32 - value) % s.bigSize, s.bigSize);
  }

  /** Within int capacity the unsigned result of `mapInt` lies in [0, capacity). */
  lemma MapIntBounded(s: HashSize, value: int32)
    requires s.Valid() && s.intCapacity
    ensures Unsigned32(s.MapInt(value)) < s.bigSize
  {
    if s.powerOfTwo {
      MapIntPowerOfTwo(s, value);
    } else if s.intSized && value >= 0 {
      MapIntNonNegative(s, value);
      FlagsMeaning(s);
      DivModUnique(value % s.bigSize, TWO_32, 0, value % s.bigSize);
    } else {
      MapIntOtherwise(s, value);
    }
  }

  /** The int-wide instance folds nothing. */
  lemma MapIntOfIntSize(value: int32)
    ensures INT_SIZE.Valid() && INT_SIZE.MapInt(value) == value
  {
    IntSizeFields();
    MapIntPowerOfTwo(INT_SIZE, value);
    Unsigned32Injective(INT_SIZE.MapInt(value), value);
  }

  /** Capacity 3 * 2^30 maps 0 to 2^30, where `mapLong` and `mapBig` give 0. */
  lemma MapIntOfZeroNonZero()
    ensures OfBig(0xC000_0000).Valid()
    ensures OfBig(0xC000_0000).MapInt(0) == 0x4000_0000
    ensures OfBig(0xC000_0000).MapLong(0) == 0
  {
    Pow2Constants();
    var c := 0xC000_0000;
    BitLengthExact(c - 1, 32);
    BitLengthExact(c, 32);
    BitCountOne(c);
    var s := OfBig(c);
    FlagsMeaning(s);
    NonPowerSizes(s);
    MapIntOtherwise(s, 0);
    assert Unsigned32(s.MapInt(0)) == 0x4000_0000;
    CongruentApart(s.MapInt(0), 0x4000_0000, TWO_32);
  }

  /**
   * The as-written `mapInt` is the residue wherever its branches do reduce
   * the value: a power of two, or an int-sized capacity and a non-negative
   * value. There it equals the corrected `MapIntResidue`.
   */
  predicate MapIntExact(s: HashSize, value: int32)
  {
    s.powerOfTwo || (s.intSized && value >= 0)
  }

  lemma MapIntAgreesWhereExact(s: HashSize, value: int32)
    requires s.Valid() && MapIntExact(s, value)
    ensures s.MapInt(value) == s.MapIntResidue(value)
    ensures s.intCapacity ==> Unsigned32(s.MapInt(value)) == value % s.bigSize
  {
  }

  /** Capacity 3 maps -2 to 0, where `mapLong` gives 1, the residue of -2. */
  lemma MapIntOfMinusTwo()
    ensures OfBig(3).Valid() && OfBig(3).intCapacity
    ensures OfBig(3).MapInt(-2) == 0
    ensures OfBig(3).MapLong(-2) == 1
  {
    Pow2Constants();
    BitLengthExact(2, 2);
    BitLengthExact(3, 2);
    var s := OfBig(3);
    FlagsMeaning(s);
    NonPowerSizes(s);
    MapIntOtherwise(s, -2);
    assert Unsigned32(s.MapInt(-2)) == 0;
    Unsigned32Small(s.MapInt(-2));
  }

  /** The corrected `mapInt` agrees with the low 32 bits of `mapLong` and `mapBig`. */
  lemma MapIntResidueAgrees(s: HashSize, value: int32)
    requires s.Valid() && s.intCapacity
    ensures s.MapIntResidue(value) == Wrap32(s.MapLong(value))
    ensures s.MapIntResidue(value) == Wrap32(s.MapBig(value))
  {
    FlagsMeaning(s);
    var r := value % s.bigSize;
    MapBigResidue(s, value);
    SmallResidue32(r, s.bigSize);
    Unsigned32Injective(s.MapIntResidue(value), Wrap32(s.MapBig(value)));
    var l := s.MapLong(value);
    MapLongResidue(s, value);
    Pow2Constants();
    ModModMultiple(l, TWO_32, TWO_32);
    DivModUnique(r, TWO_32, 0, r);
    assert Unsigned32(Wrap32(l)) == r;
    Unsigned32Injective(s.MapIntResidue(value), Wrap32(l));
  }


  /**
   * Within long capacity the unsigned result of `mapLong` is the value modulo
   * the capacity, in [0, capacity).
   */
  lemma MapLongResidue(s: HashSize, value: int64)
    requires s.Valid() && s.longCapacity
    ensures Unsigned64(s.MapLong(value)) == value % s.bigSize
  {
    if s.powerOfTwo {
      assert s.MapLong(value) == And64(value, s.longMask);
      LongMaskResidue(s, value);
    } else if s.longSized && value >= 0 {
      NonPowerSizes(s);
      assert s.MapLong(value) == JavaRem(value, s.longSize);
      JavaRemNonNegative(value, s.longSize);
      SmallResidue64(value % s.bigSize, s.bigSize);
    } else {
      FlagsRange(s);
      assert s.MapLong(value) == Wrap64(value % s.bigSize);
      SmallResidue64(value % s.bigSize, s.bigSize);
    }
  }

  /** For a long-sized capacity `mapLong` is the Euclidean residue of the signed value. */
  lemma MapLongSigned(s: HashSize, value: int64)
    requires s.Valid() && s.longSized
    ensures s.MapLong(value) == value % s.bigSize
  {
    FlagsMeaning(s);
    MapLongResidue(s, value);
    Unsigned64Small(s.MapLong(value));
  }

  /** The long-wide instance folds nothing. */
  lemma MapLongOfLongSize(value: int64)
    ensures LONG_SIZE.Valid() && LONG_SIZE.MapLong(value) == value
  {
    LongSizeFields();
    MapLongResidue(LONG_SIZE, value);
    Unsigned64Injective(LONG_SIZE.MapLong(value), value);
  }

  /** `mapBig` is the Euclidean residue, in [0, capacity) for either sign of the value. */
  lemma MapBigResidue(s: HashSize, value: int)
    requires s.Valid()
    ensures s.MapBig(value) == value % s.bigSize
    ensures 0 <= s.MapBig(value) < s.bigSize
  {
    BitsMeaning(s);
    if s.powerOfTwo {
      BigAndLowMask(value, s.bits);
    }
  }

  /** `asInt` of capacity 2^31 succeeds with a negative int. */
  lemma AsIntOfTwoPow31()
    ensures OfBig(TWO_31).Valid() && OfBig(TWO_31).AsInt() == Ok(INT_MIN)
  {
    Pow2Constants();
    OfPow2(31);
  }

  /** `asLong` of capacity 2^63 succeeds with a negative long. */
  lemma AsLongOfTwoPow63()
    ensures OfBig(TWO_63).Valid() && OfBig(TWO_63).AsLong() == Ok(LONG_MIN)
  {
    Pow2Constants();
    OfPow2(63);
  }

  /** Equality and comparison see only the capacity, which determines a valid descriptor. */
  lemma EqualsMeansSameCapacity(a: HashSize, b: HashSize)
    requires a.Valid() && b.Valid()
    ensures a.Equals(Some(b)) <==> a == b
    ensures a.Equals(Some(b)) <==> a.CompareTo(b) == 0
    ensures a.Equals(Some(b)) == b.Equals(Some(a))
    ensures a.CompareTo(b) == -b.CompareTo(a)
  {
  }
}
