// The legacy `Hashes` utilities: the choice of reranging adapter, the
// adaptation of a plain hasher into a multi-hash, and the hash codes of the
// integral primitives.

module LegacyHashes {
  import opened JavaMath
  import opened Results
  import opened HashSizes
  import opened Reranged

  // ---------------------------------------------------------------------------
  // `rangeAdjust`

  /** The object `rangeAdjust` returns: the multi-hash itself, or one of the three adapters. */
  datatype Adapter = Unchanged | IntAdapter | LongAdapter | BigAdapter

  /**
   * What `rangeAdjust` reads of a size: the descriptor, and whether its
   * values are bounded by an int and by a long (`isIntBounded` and
   * `isLongBounded`, which are not part of this model).
   */
  datatype SizeView = SizeView(size: HashSize, intBounded: bool, longBounded: bool)

  /** Both sizes are bounded by and sized for an int. */
  predicate IntTier(a: SizeView, b: SizeView)
  {
    a.intBounded && a.size.intSized && b.intBounded && b.size.intSized
  }

  /** Both sizes are bounded by and sized for a long. */
  predicate LongTier(a: SizeView, b: SizeView)
  {
    a.longBounded && a.size.longSized && b.longBounded && b.size.longSized
  }

  /**
   * `rangeAdjust(newRange, multiHash)`, given the size of the multi-hash
   * (`None` for a null argument): equal sizes keep the multi-hash, and
   * otherwise the narrowest adapter both sizes fit is chosen.
   */
  function RangeAdjust(newRange: Option<SizeView>, oldRange: Option<SizeView>): (r: Result<Adapter>)
    ensures r.Err? <==> newRange.None? || oldRange.None?
    ensures r.Err? ==> r.error == IllegalArgument
    ensures r.Ok? ==> (r.value == Unchanged <==> oldRange.value.size.Equals(Some(newRange.value.size)))
    ensures r.Ok? && r.value != Unchanged ==>
      (r.value == IntAdapter <==> IntTier(newRange.value, oldRange.value)) &&
      (r.value == LongAdapter <==> !IntTier(newRange.value, oldRange.value) && LongTier(newRange.value, oldRange.value))
  {
    if newRange.None? || oldRange.None? then Err(IllegalArgument)
    else if oldRange.value.size.Equals(Some(newRange.value.size)) then Ok(Unchanged)
    else if IntTier(newRange.value, oldRange.value) then Ok(IntAdapter)
    else if LongTier(newRange.value, oldRange.value) then Ok(LongAdapter)
    else Ok(BigAdapter)
  }

  /**
   * The int adapter's arithmetic never divides by zero: a new range smaller
   * than an int-sized old one has a size below 2^31, which `intValue()`
   * keeps, whatever the minimums.
   */
  lemma IntAdapterNeverThrows(newRange: SizeView, oldRange: SizeView, oldMin: int, newMin: int, h: int32, l: int64)
    requires newRange.size.Valid() && oldRange.size.Valid()
    requires RangeAdjust(Some(newRange), Some(oldRange)) == Ok(IntAdapter)
    ensures IntRerangedIntHash(NewReranging(Range(oldMin, oldRange.size.bigSize), Range(newMin, newRange.size.bigSize)), h).Ok?
    ensures IntRerangedLongHash(NewReranging(Range(oldMin, oldRange.size.bigSize), Range(newMin, newRange.size.bigSize)), l).Ok?
  {
    FlagsRange(newRange.size);
    FlagsRange(oldRange.size);
    if newRange.size.bigSize < oldRange.size.bigSize {
      WrapToInRange(newRange.size.bigSize, TWO_32);
    }
  }

  /** Likewise for the long adapter: a new range smaller than a long-sized old one keeps its size under `longValue()`. */
  lemma LongAdapterNeverThrows(newRange: SizeView, oldRange: SizeView, oldMin: int, newMin: int, h: int64)
    requires newRange.size.Valid() && oldRange.size.Valid()
    requires RangeAdjust(Some(newRange), Some(oldRange)) == Ok(LongAdapter)
    ensures LongAdapt(NewReranging(Range(oldMin, oldRange.size.bigSize), Range(newMin, newRange.size.bigSize)), h).Ok?
  {
    FlagsRange(newRange.size);
    FlagsRange(oldRange.size);
    if newRange.size.bigSize < oldRange.size.bigSize {
      WrapToInRange(newRange.size.bigSize, TWO_64);
    }
  }

  // ---------------------------------------------------------------------------
  // `asMultiHash`

  /** The multi-hash `asMultiHash` returns: the hasher itself, or a singleton wrapper around it. */
  datatype MultiHashOf<H> = Same(hash: H) | Singleton(hash: H)

  /** `asMultiHash(hash)`: a null hasher is rejected, a multi-hash is returned as it is, any other is wrapped. */
  function AsMultiHash<H>(hash: Option<H>, isMultiHash: bool): (r: Result<MultiHashOf<H>>)
    ensures r.Err? <==> hash.None?
    ensures r.Err? ==> r.error == IllegalArgument
    ensures r.Ok? ==> r.value.hash == hash.value && (r.value.Same? <==> isMultiHash)
  {
    if hash.None? then Err(IllegalArgument)
    else if isMultiHash then Ok(Same(hash.value))
    else Ok(Singleton(hash.value))
  }

  // ---------------------------------------------------------------------------
  // The hash codes of the integral primitives

  /** `hashCode(boolean)`: 1231 for true and 1237 for false, as `Boolean.hashCode`. */
  function BooleanHash(value: bool): (r: int32)
    ensures r == 1231 || r == 1237
    ensures value <==> r == 1231
  {
    if value then 1231 else 1237
  }

  /** `hashCode(byte)`: the byte sign-extended to an int; narrowing it back gives the byte. */
  function ByteHash(value: int8): (r: int32)
    ensures -0x80 <= r < 0x80 && (r < 0 <==> value < 0)
    ensures Wrap8(r) == value
  {
    WrapToInRange(value, TWO_8);
    value
  }

  /** `hashCode(short)`: the short sign-extended to an int, keeping its low 16 bits. */
  function ShortHash(value: int16): (r: int32)
    ensures -0x8000 <= r < 0x8000 && (r < 0 <==> value < 0)
    ensures r % 0x1_0000 == value % 0x1_0000
  {
    value
  }

  /** `hashCode(char)`: the char zero-extended to an int, so never negative. */
  function CharHash(value: char16): (r: int32)
    ensures 0 <= r < 0x1_0000
    ensures r % 0x1_0000 == value
  {
    value
  }

  /** `hashCode(int)`: the int itself. */
  function IntHash(value: int32): int32
  {
    value
  }

  /**
   * The widenings agree: a byte hashes as the short and the int it widens to,
   * a short as the int, and a char as its code read as an int.
   */
  lemma WidenedHashesAgree(b: int8, s: int16, c: char16)
    ensures ByteHash(b) == ShortHash(b) == IntHash(b)
    ensures ShortHash(s) == IntHash(s)
    ensures CharHash(c) == IntHash(c)
  {
  }

  /** `hashCode(long)` on the bits: the low word xor the high word, `(int) (v ^ (v >>> 32))`. */
  function LongHashBits(v: bv64): (r: bv32)
    ensures r == Low32(v) ^ Low32(v >> 32)
  {
    Low32(v ^ (v >> 32))
  }

  /** `hashCode(long)`. */
  function LongHash(value: int64): int32
  {
    FromBv32(LongHashBits(ToBv64(value)))
  }

  /**
   * A long widened from an int hashes to that int when it is non-negative
   * and to its complement when it is negative: the high word is then all
   * ones.
   */
  lemma LongHashOfWidened(b: bv32)
    ensures b < 0x8000_0000 ==> LongHashBits(SignExtend(b)) == b
    ensures b >= 0x8000_0000 ==> LongHashBits(SignExtend(b)) == !b
  {
  }
}
