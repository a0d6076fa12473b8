// `RandomHash`: a hash whose values are draws from a pseudo-random generator
// seeded by the value hashed. The capacity picks one of seven ways of turning
// draws into hash values; the default seeding stream condenses the value into
// a long with the same fold as `CondensingWriteStream`.

module RandomHashes {
  import opened JavaMath
  import opened Results
  import opened HashSizes
  import opened HashCodes
  import opened CondensingSteps

  // ---------------------------------------------------------------------------
  // The classification of capacities

  /** `RandomHash.Type`. */
  datatype Kind = Int | FullInt | Long | LongBits | FullLong | BigBits | Big

  /** `Type.from`, exactly as the source decides it. */
  function KindOf(s: HashSize): Kind
  {
    if s.intSized then Int
    else if s.powerOfTwo then
      if s.bits == 32 then FullInt
      else if s.bits < 64 then LongBits
      else if s.bits == 64 then FullLong
      else BigBits
    else if s.bits < 64 then Long
    else Big
  }

  /**
   * `Type.from` with INT kept for the capacities `asInt` reports positively:
   * capacity 2^31 is int-sized, but its `asInt` is `Integer.MIN_VALUE`, which
   * no bounded `nextInt` accepts; as a power of two it belongs with LONG_BITS.
   */
  function KindOfIntended(s: HashSize): Kind
  {
    if s.intSized && s.bigSize != TWO_31 then Int else if s.intSized then LongBits else KindOf(s)
  }

  /** What each kind means for the capacity, under the classification as written. */
  lemma KindMeaning(s: HashSize)
    requires s.Valid()
    ensures KindOf(s) == Int <==> s.bigSize <= TWO_31
    ensures KindOf(s) == FullInt <==> s.bigSize == TWO_32
    ensures KindOf(s) == LongBits <==> s.powerOfTwo && TWO_31 < s.bigSize <= TWO_63 && s.bigSize != TWO_32
    ensures KindOf(s) == FullLong <==> s.bigSize == TWO_64
    ensures KindOf(s) == BigBits <==> s.powerOfTwo && TWO_64 < s.bigSize
    ensures KindOf(s) == Long <==> !s.powerOfTwo && TWO_31 < s.bigSize < TWO_63
    ensures KindOf(s) == Big <==> !s.powerOfTwo && TWO_63 < s.bigSize
  {
    Pow2Constants();
    BitsMeaning(s);
    FlagsRange(s);
    assert s.bigSize <= Pow2(31) <==> s.bits <= 31;
    assert s.bigSize <= Pow2(32) <==> s.bits <= 32;
    assert s.bigSize <= Pow2(63) <==> s.bits <= 63;
    assert s.bigSize <= Pow2(64) <==> s.bits <= 64;
  }

  /** The corrected classification differs from the source's at capacity 2^31 alone. */
  lemma KindOfIntendedMeaning(s: HashSize)
    requires s.Valid()
    ensures KindOfIntended(s) == Int <==> s.bigSize < TWO_31
    ensures s.bigSize != TWO_31 ==> KindOfIntended(s) == KindOf(s)
    ensures s.bigSize == TWO_31 ==> KindOf(s) == Int && KindOfIntended(s) == LongBits && s.powerOfTwo
  {
    FlagsRange(s);
    if s.bigSize == TWO_31 {
      Pow2Of32();
      OfPow2(31);
    }
  }

  /** A kind the views can be computed for: the source's classification or the corrected one. */
  predicate Classified(s: HashSize, kind: Kind)
  {
    s.Valid() && (kind == KindOf(s) || kind == KindOfIntended(s))
  }

  /** The facts about the capacity each kind's view relies on, under either classification. */
  lemma ClassifiedRanges(s: HashSize, kind: Kind)
    requires Classified(s, kind)
    ensures kind == Int ==> s.bigSize <= TWO_31 && s.intSized
    ensures kind == FullInt ==> s.bigSize == TWO_32 && s.powerOfTwo
    ensures kind == LongBits ==> s.powerOfTwo && TWO_31 <= s.bigSize <= TWO_63 && s.longSized
    ensures kind == FullLong ==> s.bigSize == TWO_64
    ensures kind == BigBits ==> s.powerOfTwo && TWO_64 < s.bigSize
    ensures kind == Long ==> !s.powerOfTwo && TWO_31 < s.bigSize < TWO_63
    ensures kind == Big ==> !s.powerOfTwo && TWO_63 < s.bigSize
  {
    KindMeaning(s);
    KindOfIntendedMeaning(s);
    FlagsRange(s);
    if kind == FullInt {
      BitsMeaning(s);
      Pow2Constants();
      assert s.bigSize <= Pow2(32) && !(s.bigSize <= Pow2(31));
    }
  }

  // ---------------------------------------------------------------------------
  // Draws. The generator is not modelled: a draw is an arbitrary integer, and
  // each way of drawing reduces it to the range its JDK method documents.

  /**
   * `nextInt(bound)`: an IllegalArgumentException unless the bound is
   * positive, otherwise a value in [0, bound).
   */
  function BoundedDraw(bound: int32, d: int): (r: Result<int32>)
    ensures r.Ok? <==> bound > 0
    ensures r.Err? ==> r.error == IllegalArgument
    ensures r.Ok? ==> 0 <= r.value < bound
  {
    if bound <= 0 then Err(IllegalArgument) else Ok(d % bound)
  }

  /** `new BigInteger(numBits, random)`: a value in [0, 2^numBits). */
  function BitsDraw(numBits: nat, d: int): (r: nat)
    ensures r < Pow2(numBits)
  {
    d % Pow2(numBits)
  }

  // ---------------------------------------------------------------------------
  // The LONG rejection loop

  /**
   * `random.nextLong() & ~Long.MIN_VALUE`: the draw with its sign bit
   * cleared, stated by its value; SignClearedIsAnd shows it is the source's
   * bitwise AND.
   */
  function SignCleared(d: int64): (r: int64)
    ensures 0 <= r < TWO_63
  {
    d % TWO_63
  }

  /** Clearing the sign bit with `& Long.MAX_VALUE` leaves the draw modulo 2^63. */
  lemma SignClearedIsAnd(d: int64)
    ensures And64(d, LONG_MAX) == SignCleared(d)
  {
    Pow2Constants();
    And64LowMask(d, LONG_MAX, 63);
    var r := And64(d, LONG_MAX);
    if r < 0 {
      DivModUnique(r, TWO_64, -1, r + TWO_64);
    } else {
      DivModUnique(r, TWO_64, 0, r);
    }
  }

  /**
   * The loop's test `bits - value + (s - 1) >= 0`, in wrapping long
   * arithmetic, on the draw with its sign bit cleared. `bits` is not
   * negative, so Java's `bits % s` is the Euclidean remainder
   * (LongResidueIsJavaRem).
   */
  predicate Accepted(s: int64, d: int64)
    requires s > 0
  {
    var bits := SignCleared(d);
    Wrap64(bits - bits % s + (s - 1)) >= 0
  }

  /** `bits % s`, the value the loop returns for an accepted draw. */
  function LongResidue(s: int64, d: int64): (r: int64)
    requires s > 0
    ensures 0 <= r < s
  {
    SignCleared(d) % s
  }

  /** The residue is Java's remainder of the sign-cleared draw. */
  lemma LongResidueIsJavaRem(s: int64, d: int64)
    requires s > 0
    ensures LongResidue(s, d) == JavaRem(SignCleared(d), s)
  {
    JavaRemNonNegative(SignCleared(d), s);
  }

  /**
   * A draw is accepted exactly when the whole block of s values it falls in
   * lies below 2^63, so that every residue has the same number of accepted
   * draws; the test detects the block's end overflowing a long.
   */
  lemma AcceptedMeaning(s: int64, d: int64)
    requires s > 0
    ensures Accepted(s, d) <==> s * (SignCleared(d) / s + 1) <= TWO_63
  {
    var bits := SignCleared(d);
    var value := LongResidue(s, d);
    BlockStart(bits, s);
    Wrap64Sign(bits - value + (s - 1));
  }

  /** A value less its residue is the start of its block of s. */
  lemma BlockStart(x: int, s: int)
    requires s > 0
    ensures x - x % s == s * (x / s)
    ensures s * (x / s + 1) == s * (x / s) + s
  {
  }

  /** A wrapped long is non-negative exactly when the unwrapped value is below 2^63. */
  lemma Wrap64Sign(x: int)
    requires 0 <= x < TWO_64
    ensures Wrap64(x) >= 0 <==> x < TWO_63
  {
    if x < TWO_63 {
      Wrap64Id(x);
    } else {
      DivModUnique(x, TWO_64, 0, x);
    }
  }

  // ---------------------------------------------------------------------------
  // The views, as functions of the draw that decides them. The source's views
  // call each other (`longValue` of an INT hash reads `intValue`, and so on);
  // each case below is the chain of calls it ends in.

  /** The INT and FULL_INT cases of `intValue`: `nextInt(size.asInt())` or `nextInt()`. */
  function IntDraw(s: HashSize, kind: Kind, d: int): (r: Result<int32>)
    requires Classified(s, kind) && (kind == Int || kind == FullInt)
  {
    if kind == Int then
      IntKindAsInt(s);
      BoundedDraw(s.AsInt().value, d)
    else Ok(Wrap32(d))
  }

  lemma IntKindAsInt(s: HashSize)
    requires Classified(s, Int)
    ensures s.AsInt().Ok?
  {
    ClassifiedRanges(s, Int);
  }

  lemma LongKindAsLong(s: HashSize)
    requires Classified(s, Long)
    ensures s.AsLong().Ok? && s.AsLong().value == s.bigSize && 0 < s.bigSize < TWO_63
  {
    ClassifiedRanges(s, Long);
    NonPowerSizes(s);
    FlagsRange(s);
  }

  /**
   * The LONG, LONG_BITS and FULL_LONG cases of `longValue`: the residue of
   * the accepted draw, `mapLong` of a draw (which masks a power-of-two
   * capacity's low bits off the signed long: its residue, see
   * LongBitsDrawIsMapLong), or the draw itself.
   */
  function LongDraw(s: HashSize, kind: Kind, d: int): (r: int64)
    requires Classified(s, kind) && (kind == Long || kind == LongBits || kind == FullLong)
  {
    match kind
    case Long =>
      LongKindAsLong(s);
      LongResidue(s.AsLong().value, Wrap64(d))
    case LongBits =>
      ClassifiedRanges(s, LongBits);
      Wrap64(d) % s.bigSize
    case FullLong => Wrap64(d)
  }

  /**
   * The BIG_BITS and BIG cases of `bigValue`: a draw of `bits` bits, or
   * `mapBig` of a draw of `bits + 16` bits (which for a capacity that is not
   * a power of two is `BigInteger.mod`, see BigDrawIsMapBig).
   */
  function BigDraw(s: HashSize, kind: Kind, d: int): (r: int)
    requires Classified(s, kind) && (kind == BigBits || kind == Big)
  {
    if kind == BigBits then BitsDraw(s.bits, d) else BitsDraw(s.bits + 16, d) % s.bigSize
  }

  /** BIG: `mapBig` of the wider draw is its residue modulo the capacity. */
  lemma BigDrawIsMapBig(s: HashSize, d: int)
    requires Classified(s, Big)
    ensures s.MapBig(BitsDraw(s.bits + 16, d)) == BigDraw(s, Big, d)
  {
    MapBigResidue(s, BitsDraw(s.bits + 16, d));
  }

  /**
   * What a hash's one draw yields: every kind has one view that draws (the
   * int view for INT kinds, the long view for LONG kinds, the big view for
   * BIG kinds), and the other views call it and convert its result.
   */
  datatype Drawn = IntDrawn(i: Result<int32>) | LongDrawn(l: int64) | BigDrawn(b: int)

  /** The draw of a hash of the given kind, from the generator's value d. */
  function Draw(s: HashSize, kind: Kind, d: int): (r: Drawn)
    requires Classified(s, kind)
  {
    match kind
    case Int | FullInt => IntDrawn(IntDraw(s, kind, d))
    case Long | LongBits | FullLong => LongDrawn(LongDraw(s, kind, d))
    case BigBits | Big => BigDrawn(BigDraw(s, kind, d))
  }

  /** `intValue` of a drawn value: `(int) longValue()`, `bigValue().intValue()`. */
  function IntOf(x: Drawn): Result<int32>
  {
    match x
    case IntDrawn(i) => i
    case LongDrawn(l) => Ok(Wrap32(l))
    case BigDrawn(b) => Ok(Wrap32(b))
  }

  /** `longValue` of a drawn value: `intValue() & 0xffffffffL`, `bigValue().longValue()`. */
  function LongOf(x: Drawn): Result<int64>
  {
    match x
    case IntDrawn(i) => if i.Err? then Err(i.error) else Ok(Unsigned32(i.value) as int64)
    case LongDrawn(l) => Ok(l)
    case BigDrawn(b) => Ok(Wrap64(b))
  }

  /**
   * `bigValue` of a drawn value, as written: a long is `BigInteger.valueOf`
   * for LONG and LONG_BITS, but FULL_LONG adds 2^64 to it whatever its sign.
   */
  function BigOf(kind: Kind, x: Drawn): Result<int>
  {
    match x
    case IntDrawn(i) => if i.Err? then Err(i.error) else Ok(Unsigned32(i.value) as int)
    case LongDrawn(l) => if kind == FullLong then Ok(LongsBigViewAsWritten(l)) else Ok(l as int)
    case BigDrawn(b) => Ok(b)
  }

  /** `bigValue` of a drawn value with FULL_LONG's long read unsigned. */
  function BigOfIntended(kind: Kind, x: Drawn): Result<int>
  {
    if kind == FullLong && x.LongDrawn? then Ok(LongsBigView(x.l)) else BigOf(kind, x)
  }

  /** `intValue`. */
  function IntView(s: HashSize, kind: Kind, d: int): Result<int32>
    requires Classified(s, kind)
  {
    IntOf(Draw(s, kind, d))
  }

  /** `longValue`. */
  function LongView(s: HashSize, kind: Kind, d: int): Result<int64>
    requires Classified(s, kind)
  {
    LongOf(Draw(s, kind, d))
  }

  /** `bigValue`, as written. */
  function BigView(s: HashSize, kind: Kind, d: int): Result<int>
    requires Classified(s, kind)
  {
    BigOf(kind, Draw(s, kind, d))
  }

  /** `bigValue` with FULL_LONG's long read unsigned. */
  function BigViewIntended(s: HashSize, kind: Kind, d: int): Result<int>
    requires Classified(s, kind)
  {
    BigOfIntended(kind, Draw(s, kind, d))
  }

  // ---------------------------------------------------------------------------
  // What the views promise

  /**
   * Only an INT hash of capacity 2^31 fails: its `asInt` is
   * `Integer.MIN_VALUE`, and `nextInt` rejects a bound that is not positive.
   * Every view of such a hash fails, since the long and big views read the int.
   */
  lemma ViewsFail(s: HashSize, kind: Kind, d: int)
    requires Classified(s, kind)
    ensures IntView(s, kind, d).Err? <==> kind == Int && s.bigSize == TWO_31
    ensures IntView(s, kind, d).Err? ==> IntView(s, kind, d).error == IllegalArgument
    ensures LongView(s, kind, d).Err? <==> IntView(s, kind, d).Err?
    ensures BigView(s, kind, d).Err? <==> IntView(s, kind, d).Err?
  {
    match kind
    case Int => IntKindDraw(s, d);
    case FullInt =>
    case Long | LongBits | FullLong => LongTierViews(s, kind, d);
    case BigBits | Big => BigTierViews(s, kind, d);
  }

  /** INT draws with `nextInt(asInt())`, whose bound is positive unless the capacity is 2^31. */
  lemma IntKindStep(s: HashSize, d: int)
    requires Classified(s, Int)
    ensures s.AsInt().Ok? && (s.AsInt().value > 0 <==> s.bigSize != TWO_31)
    ensures Draw(s, Int, d) == IntDrawn(BoundedDraw(s.AsInt().value, d))
  {
    IntKindAsInt(s);
    IntKindDraw(s, d);
  }

  lemma IntKindDraw(s: HashSize, d: int)
    requires Classified(s, Int)
    ensures IntDraw(s, Int, d).Err? <==> s.bigSize == TWO_31
    ensures IntDraw(s, Int, d).Err? ==> IntDraw(s, Int, d).error == IllegalArgument
    ensures IntDraw(s, Int, d).Ok? ==> 0 <= IntDraw(s, Int, d).value < s.bigSize
  {
    ClassifiedRanges(s, Int);
    if s.bigSize == TWO_31 {
      AsIntOfTwoPow31();
    } else {
      assert s.AsPositiveInt().value == s.bigSize;
    }
  }

  /** The source's classification: capacity 2^31 gets the INT kind, and every draw fails. */
  lemma IntViewOfTwoPow31(d: int)
    ensures OfBig(TWO_31).Valid() && KindOf(OfBig(TWO_31)) == Int
    ensures IntView(OfBig(TWO_31), KindOf(OfBig(TWO_31)), d) == Err(IllegalArgument)
  {
    AsIntOfTwoPow31();
    KindMeaning(OfBig(TWO_31));
    ViewsFail(OfBig(TWO_31), Int, d);
  }

  /** Under the corrected classification no view fails. */
  lemma IntendedViewsSucceed(s: HashSize, d: int)
    requires s.Valid()
    ensures IntView(s, KindOfIntended(s), d).Ok?
    ensures LongView(s, KindOfIntended(s), d).Ok?
    ensures BigViewIntended(s, KindOfIntended(s), d).Ok?
  {
    KindOfIntendedMeaning(s);
    ViewsFail(s, KindOfIntended(s), d);
  }

  /**
   * INT and FULL_INT: the int view of an INT hash is below the capacity, and
   * the long and big views read the int unsigned, so they are below the
   * capacity and truncate back to the int.
   */
  lemma IntTierViews(s: HashSize, kind: Kind, d: int)
    requires Classified(s, kind) && (kind == Int || kind == FullInt)
    requires IntView(s, kind, d).Ok?
    ensures kind == Int ==> 0 <= IntView(s, kind, d).value < s.bigSize
    ensures LongView(s, kind, d).Ok? && BigView(s, kind, d).Ok?
    ensures 0 <= LongView(s, kind, d).value < s.bigSize
    ensures BigView(s, kind, d).value == LongView(s, kind, d).value
    ensures Wrap32(LongView(s, kind, d).value) == IntView(s, kind, d).value
  {
    ClassifiedRanges(s, kind);
    if kind == Int {
      IntKindDraw(s, d);
    }
    Unsigned32Reading(IntView(s, kind, d).value);
  }

  /** An int read unsigned truncates back to the int. */
  lemma Unsigned32Reading(x: int32)
    ensures Wrap32(Unsigned32(x)) == x
  {
    WrapToCongruent(Unsigned32(x), x, TWO_32);
    Wrap32Id(x);
  }

  /**
   * LONG, LONG_BITS and FULL_LONG: the int view truncates the long view; for
   * LONG and LONG_BITS the long lies below the capacity, where the big view
   * agrees with it.
   */
  lemma LongTierViews(s: HashSize, kind: Kind, d: int)
    requires Classified(s, kind) && (kind == Long || kind == LongBits || kind == FullLong)
    ensures LongView(s, kind, d).Ok? && IntView(s, kind, d).Ok? && BigView(s, kind, d).Ok?
    ensures IntView(s, kind, d).value == Wrap32(LongView(s, kind, d).value)
    ensures kind != FullLong ==> 0 <= LongView(s, kind, d).value < s.bigSize
    ensures kind != FullLong ==> BigView(s, kind, d).value == LongView(s, kind, d).value
  {
    match kind
    case Long => LongKindViews(s, d);
    case LongBits => LongBitsKindViews(s, d);
    case FullLong => FullLongViews(s, d);
  }

  lemma LongKindViews(s: HashSize, d: int)
    requires Classified(s, Long)
    ensures LongView(s, Long, d).Ok? && IntView(s, Long, d).Ok? && BigView(s, Long, d).Ok?
    ensures IntView(s, Long, d).value == Wrap32(LongView(s, Long, d).value)
    ensures 0 <= LongView(s, Long, d).value < s.bigSize
    ensures BigView(s, Long, d).value == LongView(s, Long, d).value
  {
    LongKindDraw(s, d);
  }

  lemma LongBitsKindViews(s: HashSize, d: int)
    requires Classified(s, LongBits)
    ensures LongView(s, LongBits, d).Ok? && IntView(s, LongBits, d).Ok? && BigView(s, LongBits, d).Ok?
    ensures IntView(s, LongBits, d).value == Wrap32(LongView(s, LongBits, d).value)
    ensures 0 <= LongView(s, LongBits, d).value < s.bigSize
    ensures BigView(s, LongBits, d).value == LongView(s, LongBits, d).value
  {
    ClassifiedRanges(s, LongBits);
  }

  lemma FullLongViews(s: HashSize, d: int)
    requires Classified(s, FullLong)
    ensures LongView(s, FullLong, d).Ok? && IntView(s, FullLong, d).Ok? && BigView(s, FullLong, d).Ok?
    ensures IntView(s, FullLong, d).value == Wrap32(LongView(s, FullLong, d).value)
  {
  }

  /** LONG: the long is the accepted draw, sign bit cleared, modulo the capacity. */
  lemma LongKindDraw(s: HashSize, d: int)
    requires Classified(s, Long)
    ensures LongDraw(s, Long, d) == SignCleared(Wrap64(d)) % s.bigSize
    ensures 0 <= LongDraw(s, Long, d) < s.bigSize
  {
    LongKindAsLong(s);
  }

  /** LONG_BITS: `mapLong` of the draw is the signed draw modulo the capacity. */
  lemma LongBitsDrawIsMapLong(s: HashSize, d: int)
    requires Classified(s, LongBits)
    ensures s.MapLong(Wrap64(d)) == LongDraw(s, LongBits, d)
  {
    ClassifiedRanges(s, LongBits);
    MapLongSigned(s, Wrap64(d));
  }

  /**
   * FULL_LONG as written: the big view is 2^64 plus the long, so every
   * non-negative long gives a big view at or above the capacity 2^64.
   */
  lemma FullLongBigView(s: HashSize, d: int)
    requires s.Valid() && s.bigSize == TWO_64
    ensures KindOf(s) == FullLong
    ensures BigView(s, FullLong, d).value == TWO_64 + LongView(s, FullLong, d).value
    ensures LongView(s, FullLong, d).value >= 0 ==> BigView(s, FullLong, d).value >= s.bigSize
  {
    KindMeaning(s);
  }

  /** FULL_LONG corrected: the big view is the long read unsigned, below 2^64. */
  lemma FullLongBigViewIntended(s: HashSize, d: int)
    requires s.Valid() && s.bigSize == TWO_64
    ensures KindOfIntended(s) == FullLong
    ensures 0 <= BigViewIntended(s, FullLong, d).value < s.bigSize
    ensures Wrap64(BigViewIntended(s, FullLong, d).value) == LongView(s, FullLong, d).value
  {
    KindMeaning(s);
    KindOfIntendedMeaning(s);
  }

  /**
   * BIG_BITS and BIG: the big view is below the capacity (a draw of `bits`
   * bits, or a wider draw reduced by `mapBig`), and the int and long views
   * truncate it.
   */
  lemma BigTierViews(s: HashSize, kind: Kind, d: int)
    requires Classified(s, kind) && (kind == BigBits || kind == Big)
    ensures BigView(s, kind, d).Ok? && IntView(s, kind, d).Ok? && LongView(s, kind, d).Ok?
    ensures 0 <= BigView(s, kind, d).value < s.bigSize
    ensures IntView(s, kind, d).value == Wrap32(BigView(s, kind, d).value)
    ensures LongView(s, kind, d).value == Wrap64(BigView(s, kind, d).value)
  {
    BigDrawRange(s, kind, d);
    assert Draw(s, kind, d) == BigDrawn(BigDraw(s, kind, d));
  }

  /** The big draw lies below the capacity. */
  lemma BigDrawRange(s: HashSize, kind: Kind, d: int)
    requires Classified(s, kind) && (kind == BigBits || kind == Big)
    ensures 0 <= BigDraw(s, kind, d) < s.bigSize
  {
    if kind == BigBits {
      ClassifiedRanges(s, kind);
      PowerOfTwoFields(s);
    }
  }

  /**
   * Every big view lies in [0, capacity), except FULL_LONG's as written and
   * the failing INT case; under the corrected classification and big view,
   * every one does.
   */
  lemma BigViewsWithinCapacity(s: HashSize, kind: Kind, d: int)
    requires Classified(s, kind) && kind != FullLong && IntView(s, kind, d).Ok?
    ensures BigView(s, kind, d).Ok? && 0 <= BigView(s, kind, d).value < s.bigSize
  {
    match kind
    case Int | FullInt => IntTierViews(s, kind, d);
    case Long | LongBits => LongTierViews(s, kind, d);
    case BigBits | Big => BigTierViews(s, kind, d);
  }

  lemma IntendedBigViewsWithinCapacity(s: HashSize, d: int)
    requires s.Valid()
    ensures BigViewIntended(s, KindOfIntended(s), d).Ok?
    ensures 0 <= BigViewIntended(s, KindOfIntended(s), d).value < s.bigSize
  {
    var kind := KindOfIntended(s);
    IntendedViewsSucceed(s, d);
    if kind == FullLong {
      ClassifiedRanges(s, kind);
      FullLongBigViewIntended(s, d);
    } else {
      BigViewsWithinCapacity(s, kind, d);
    }
  }

  // ---------------------------------------------------------------------------
  // The generator

  /**
   * A seeded `java.util.Random`. What the JDK derives from a seed is not
   * modelled: the k-th value handed out since the last `setSeed(seed)` is
   * `stream(seed)(k)`, and each `next*` call consumes one value.
   */
  class Prng {
    const stream: int64 -> nat -> int
    var seed: int64
    var count: nat

    constructor (stream: int64 -> nat -> int, seed: int64)
      ensures this.stream == stream && this.seed == seed && count == 0
    {
      this.stream := stream;
      this.seed := seed;
      count := 0;
    }

    /** The k-th value since the generator was last seeded. */
    function DrawAt(k: nat): int
      reads this`seed
    {
      stream(seed)(k)
    }

    /** `setSeed`: the sequence of values restarts from the new seed. */
    method SetSeed(s: int64)
      modifies this
      ensures seed == s && count == 0
    {
      seed := s;
      count := 0;
    }

    /** `nextInt()`: the next value as an int. */
    method NextInt() returns (r: int32)
      modifies this
      ensures seed == old(seed) && count == old(count) + 1
      ensures r == Wrap32(DrawAt(old(count)))
    {
      r := Wrap32(stream(seed)(count));
      count := count + 1;
    }

    /** `nextInt(bound)`: rejects a bound that is not positive before drawing. */
    method NextBoundedInt(bound: int32) returns (r: Result<int32>)
      modifies this
      ensures seed == old(seed)
      ensures count == old(count) + (if bound > 0 then 1 else 0)
      ensures r == BoundedDraw(bound, DrawAt(old(count)))
    {
      r := BoundedDraw(bound, stream(seed)(count));
      if bound > 0 {
        count := count + 1;
      }
    }

    /** `nextLong()`: the next value as a long. */
    method NextLong() returns (r: int64)
      modifies this
      ensures seed == old(seed) && count == old(count) + 1
      ensures r == Wrap64(DrawAt(old(count)))
    {
      r := Wrap64(stream(seed)(count));
      count := count + 1;
    }

    /** `new BigInteger(numBits, random)`: the next value as numBits random bits. */
    method NextBits(numBits: nat) returns (r: nat)
      modifies this
      ensures seed == old(seed) && count == old(count) + 1
      ensures r == BitsDraw(numBits, DrawAt(old(count)))
    {
      r := BitsDraw(numBits, stream(seed)(count));
      count := count + 1;
    }
  }

  /** The LONG loop's test for capacity s, as a predicate on the long drawn. */
  function LongTest(s: int64): int64 -> bool
    requires s > 0
  {
    (x: int64) => Accepted(s, x)
  }

  /**
   * The long drawn at `at` is the first from `from` on that `accept` holds
   * of: each draw from `from` is either accepted, and is the one at `at`, or
   * rejected, and the search goes on with the next.
   */
  ghost predicate FirstAccepted(random: Prng, accept: int64 -> bool, from: nat, at: nat)
    reads random`seed
    decreases at - from
  {
    from <= at &&
    if accept(Wrap64(random.DrawAt(from))) then from == at
    else FirstAccepted(random, accept, from + 1, at)
  }

  /** The first accepted draw is accepted, and every draw before it rejected. */
  lemma {:induction false} FirstAcceptedMeaning(random: Prng, accept: int64 -> bool, from: nat, at: nat)
    ensures FirstAccepted(random, accept, from, at) <==>
      from <= at && accept(Wrap64(random.DrawAt(at)))
      && forall k: nat :: from <= k < at ==> !accept(Wrap64(random.DrawAt(k)))
    decreases at - from
  {
    if from < at {
      FirstAcceptedMeaning(random, accept, from + 1, at);
    }
  }

  /** `accept` holds of some long drawn from the generator's position on. */
  ghost predicate SomeAccepted(random: Prng, accept: int64 -> bool)
    reads random`seed, random`count
  {
    exists k: nat :: k >= random.count && accept(Wrap64(random.DrawAt(k)))
  }

  /**
   * The `while (true)` of the LONG case of `longValue`: draws longs until
   * one passes the test, and returns it.
   */
  method DrawUntil(random: Prng, accept: int64 -> bool) returns (x: int64)
    requires SomeAccepted(random, accept)
    modifies random
    ensures random.seed == old(random.seed) && old(random.count) < random.count
    ensures FirstAccepted(random, accept, old(random.count), random.count - 1)
    ensures x == Wrap64(random.DrawAt(random.count - 1))
  {
    ghost var from, draws := random.count, random.stream(random.seed);
    ghost var target :| target >= random.count && accept(Wrap64(draws(target)));
    while true
      invariant random.seed == old(random.seed)
      invariant from <= random.count <= target
      invariant forall k: nat :: from <= k < random.count ==> !accept(Wrap64(draws(k)))
      decreases target - random.count
    {
      x := random.NextLong();
      if accept(x) {
        FirstAcceptedMeaning(random, accept, from, random.count - 1);
        return;
      }
    }
  }

  // ---------------------------------------------------------------------------
  // The hash code

  /**
   * The anonymous `HashCode` that `hash` returns: every view draws from the
   * seeded generator, and the view asked for decides how the draw is read.
   * The FULL_LONG big view is the source's 2^64 plus the long (BigView).
   */
  class RandomHashCode {
    const size: HashSize
    const kind: Kind
    const random: Prng

    constructor (size: HashSize, kind: Kind, random: Prng)
      requires Classified(size, kind)
      ensures this.size == size && this.kind == kind && this.random == random
    {
      this.size := size;
      this.kind := kind;
      this.random := random;
    }

    /**
     * The draws a successful view consumed, from `from` to `at`: one draw,
     * except for LONG, whose loop rejects draws until one is accepted.
     */
    ghost predicate Drew(from: nat, at: nat)
      reads random`seed
    {
      if kind == Long then 0 < size.bigSize < TWO_63 && FirstAccepted(random, LongTest(size.bigSize), from, at)
      else at == from
    }

    /**
     * The LONG loop ends only if some later draw is accepted; `longValue`
     * of a LONG hash whose generator never yields one does not return.
     */
    ghost predicate WillAccept()
      reads random`seed, random`count
    {
      kind == Long ==> 0 < size.bigSize < TWO_63 && SomeAccepted(random, LongTest(size.bigSize))
    }

    /** `hasNext`: a random hash never runs out of values. */
    function HasNext(): (r: bool)
      ensures r
    {
      true
    }

    /** The hash fails: an INT hash of capacity 2^31, whose `nextInt` bound is not positive. */
    predicate Fails()
    {
      kind == Int && size.bigSize == TWO_31
    }

    /**
     * x is what a view drew from position `from` on: the failure without a
     * draw, or the draw at the last position the view consumed.
     */
    ghost predicate DrawnFrom(x: Drawn, from: nat)
      requires Classified(size, kind)
      reads random`seed, random`count
    {
      if Fails() then
        x == IntDrawn(Err(IllegalArgument)) && random.count == from
      else
        from < random.count && Drew(from, random.count - 1) &&
        x == Draw(size, kind, random.DrawAt(random.count - 1))
    }

    /**
     * The draw behind every view: `nextInt(size.asInt())` or `nextInt()` for
     * the INT kinds, the LONG loop, `mapLong(nextLong())` or `nextLong()` for
     * the LONG kinds, `new BigInteger(bits, random)` or `mapBig` of a wider
     * one for the BIG kinds.
     */
    method DrawNext() returns (x: Drawn)
      requires Classified(size, kind) && WillAccept()
      modifies random
      ensures random.seed == old(random.seed) && DrawnFrom(x, old(random.count))
    {
      match kind
      case Int => x := DrawInt();
      case FullInt => x := DrawFullInt();
      case Long => x := DrawLong();
      case LongBits => x := DrawLongBits();
      case FullLong => x := DrawFullLong();
      case BigBits | Big => x := DrawBigTier();
    }

    /** INT: `nextInt(size.asInt())`, which fails without a draw for a capacity of 2^31. */
    method DrawInt() returns (x: Drawn)
      requires Classified(size, kind) && kind == Int
      modifies random
      ensures random.seed == old(random.seed)
      ensures DrawnFrom(x, old(random.count))
    {
      IntKindStep(size, random.DrawAt(random.count));
      var i := random.NextBoundedInt(size.AsInt().value);
      x := IntDrawn(i);
    }

    /** FULL_INT: `nextInt()`. */
    method DrawFullInt() returns (x: Drawn)
      requires Classified(size, kind) && kind == FullInt
      modifies random
      ensures random.seed == old(random.seed)
      ensures DrawnFrom(x, old(random.count))
    {
      var i := random.NextInt();
      x := IntDrawn(Ok(i));
    }

    /**
     * LONG: draw longs until one, its sign bit cleared, is not in the
     * incomplete block at the top of the range, and reduce it modulo the
     * capacity.
     */
    method DrawLong() returns (x: Drawn)
      requires Classified(size, kind) && kind == Long && WillAccept()
      modifies random
      ensures random.seed == old(random.seed)
      ensures DrawnFrom(x, old(random.count))
    {
      LongKindAsLong(size);
      var s := size.AsLong().value;
      var l := DrawUntil(random, LongTest(size.bigSize));
      x := LongDrawn(LongResidue(s, l));
    }

    /** LONG_BITS: `mapLong(random.nextLong())`. */
    method DrawLongBits() returns (x: Drawn)
      requires Classified(size, kind) && kind == LongBits
      modifies random
      ensures random.seed == old(random.seed)
      ensures DrawnFrom(x, old(random.count))
    {
      var l := random.NextLong();
      x := LongDrawn(size.MapLong(l));
      LongBitsDrawIsMapLong(size, random.DrawAt(old(random.count)));
    }

    /** FULL_LONG: `random.nextLong()`. */
    method DrawFullLong() returns (x: Drawn)
      requires Classified(size, kind) && kind == FullLong
      modifies random
      ensures random.seed == old(random.seed)
      ensures DrawnFrom(x, old(random.count))
    {
      var l := random.NextLong();
      x := LongDrawn(l);
    }

    /** BIG_BITS: `new BigInteger(bits, random)`; BIG: `mapBig` of one 16 bits wider. */
    method DrawBigTier() returns (x: Drawn)
      requires Classified(size, kind) && (kind == BigBits || kind == Big)
      modifies random
      ensures random.seed == old(random.seed)
      ensures DrawnFrom(x, old(random.count))
    {
      if kind == BigBits {
        var b := random.NextBits(size.bits);
        x := BigDrawn(b);
      } else {
        var b := random.NextBits(size.bits + 16);
        x := BigDrawn(size.MapBig(b));
        BigDrawIsMapBig(size, random.DrawAt(old(random.count)));
      }
    }

    /** `intValue`. */
    method IntValue() returns (r: Result<int32>)
      requires Classified(size, kind) && WillAccept()
      modifies random
      ensures random.seed == old(random.seed)
      ensures Fails() ==> r == Err(IllegalArgument) && random.count == old(random.count)
      ensures !Fails() ==> old(random.count) < random.count && Drew(old(random.count), random.count - 1)
      ensures !Fails() ==> r == IntView(size, kind, random.DrawAt(random.count - 1))
    {
      var x := DrawNext();
      r := IntOf(x);
    }

    /** `longValue`. */
    method LongValue() returns (r: Result<int64>)
      requires Classified(size, kind) && WillAccept()
      modifies random
      ensures random.seed == old(random.seed)
      ensures Fails() ==> r == Err(IllegalArgument) && random.count == old(random.count)
      ensures !Fails() ==> old(random.count) < random.count && Drew(old(random.count), random.count - 1)
      ensures !Fails() ==> r == LongView(size, kind, random.DrawAt(random.count - 1))
    {
      var x := DrawNext();
      r := LongOf(x);
    }

    /** `bigValue`, as written: FULL_LONG adds 2^64 to its long whatever its sign. */
    method BigValue() returns (r: Result<int>)
      requires Classified(size, kind) && WillAccept()
      modifies random
      ensures random.seed == old(random.seed)
      ensures Fails() ==> r == Err(IllegalArgument) && random.count == old(random.count)
      ensures !Fails() ==> old(random.count) < random.count && Drew(old(random.count), random.count - 1)
      ensures !Fails() ==> r == BigView(size, kind, random.DrawAt(random.count - 1))
    {
      var x := DrawNext();
      r := BigOf(kind, x);
    }
  }

  // ---------------------------------------------------------------------------
  // Seeding and the hash

  /**
   * `LongSeedingStream`: folds every primitive written into a long seed, with
   * the steps of `CondensingWriteStream` (so a byte or short write keeps only
   * the low bits of the whole sum), and seeds the generator with it.
   */
  class LongSeedingStream {
    const random: Prng
    var seed: int64

    constructor (random: Prng)
      ensures this.random == random && seed == 0
    {
      this.random := random;
      seed := 0;
    }

    method WriteByte(v: int8)
      modifies this
      ensures seed == ByteStep(old(seed), v)
      ensures 0 <= seed < TWO_8
    {
      seed := ByteStep(seed, v);
    }

    method WriteChar(v: char16)
      modifies this
      ensures seed == LongStep(old(seed), v as int64)
    {
      seed := LongStep(seed, v as int64);
    }

    method WriteShort(v: int16)
      modifies this
      ensures seed == ShortStep(old(seed), v)
      ensures 0 <= seed < TWO_16
    {
      seed := ShortStep(seed, v);
    }

    method WriteInt(v: int32)
      modifies this
      ensures seed == IntStep(old(seed), v)
      ensures 0 <= seed < TWO_32
    {
      seed := IntStep(seed, v);
    }

    method WriteLong(v: int64)
      modifies this
      ensures seed == LongStep(old(seed), v)
    {
      seed := LongStep(seed, v);
    }

    /** `getRandom`: the generator, reseeded, so its draws start over from the seed. */
    method GetRandom() returns (r: Prng)
      modifies random
      ensures r == random && r.seed == seed && r.count == 0
    {
      random.SetSeed(seed);
      r := random;
    }
  }

  /**
   * `RandomHash` over the default generator: a capacity and the kind
   * `Type.from` picks for it, so capacity 2^31 is INT and every view of its
   * hash codes fails (`IntViewOfTwoPow31`).
   */
  class RandomHash {
    const size: HashSize
    const kind: Kind

    constructor (size: HashSize)
      requires size.Valid()
      ensures this.size == size && kind == KindOf(size) && Valid()
    {
      this.size := size;
      kind := KindOf(size);
    }

    /** The kind is the one the capacity picks. */
    predicate Valid()
    {
      size.Valid() && kind == KindOf(size)
    }

    function GetSize(): (r: HashSize)
      ensures r == size
    {
      size
    }

    /** `newStream`: a seeding stream over a new generator, with seed 0. */
    method NewStream(generator: Prng) returns (stream: LongSeedingStream)
      ensures fresh(stream) && stream.random == generator && stream.seed == 0
    {
      stream := new LongSeedingStream(generator);
    }

    /**
     * `hash`: the generator, seeded with what the stream condensed, behind a
     * hash code of this capacity and kind.
     */
    method Hash(stream: LongSeedingStream) returns (h: RandomHashCode)
      requires Valid()
      modifies stream.random
      ensures fresh(h) && h.size == size && h.kind == kind && h.random == stream.random
      ensures h.random.seed == stream.seed && h.random.count == 0
    {
      var random := stream.GetRandom();
      h := new RandomHashCode(size, kind, random);
    }
  }
}
