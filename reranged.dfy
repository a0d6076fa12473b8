// The legacy rerangings: a hash over one range moved onto another, by
// subtracting the old minimum, reducing modulo the new size when the new
// range is smaller, and adding the new minimum, in `int`, `long` or
// `BigInteger` arithmetic.

module Reranged {
  import opened JavaMath
  import opened Results
  import opened MultiHashes

  /** A hash range as the rerangings read it: its minimum and its size. */
  datatype Range = Range(min: int, size: int)

  /** The fields a `RerangedHash` fixes at construction. */
  datatype Reranging = Reranging(oldRange: Range, newRange: Range, isSmaller: bool)

  /**
   * The constructor: the old range is the delegate's, and the new range is
   * smaller when its size is strictly less than the old one's.
   */
  function NewReranging(oldRange: Range, newRange: Range): (r: Reranging)
    ensures r.oldRange == oldRange && r.newRange == newRange
    ensures r.isSmaller <==> newRange.size < oldRange.size
  {
    Reranging(oldRange, newRange, newRange.size < oldRange.size)
  }

  // ---------------------------------------------------------------------------
  // `BigInteger` arithmetic

  /**
   * `adapt(BigInteger)` of `LongRerangedHash` and `BigRerangedHasher`:
   * `mod` is the non-negative remainder, and it rejects a size that is not
   * positive.
   */
  function BigAdapt(r: Reranging, h: int): (x: Result<int>)
    ensures r.isSmaller && r.newRange.size <= 0 ==> x == Err(Arithmetic)
    ensures r.isSmaller && r.newRange.size > 0 ==>
      x.Ok? && r.newRange.min <= x.value < r.newRange.min + r.newRange.size &&
      (x.value - r.newRange.min) % r.newRange.size == (h - r.oldRange.min) % r.newRange.size
    ensures !r.isSmaller ==> x == Ok(h - r.oldRange.min + r.newRange.min)
  {
    var d := h - r.oldRange.min;
    if !r.isSmaller then Ok(d + r.newRange.min)
    else if r.newRange.size <= 0 then Err(Arithmetic)
    else
      ModModMultiple(d, r.newRange.size, 1);
      Ok(d % r.newRange.size + r.newRange.min)
  }

  /** Every value of a smaller new range is reached, from the hash at the same offset in the old range. */
  lemma BigAdaptOnto(r: Reranging, y: int)
    requires r.isSmaller && r.newRange.size > 0
    requires r.newRange.min <= y < r.newRange.min + r.newRange.size
    ensures BigAdapt(r, y - r.newRange.min + r.oldRange.min) == Ok(y)
  {
    var k := y - r.newRange.min;
    DivModUnique(k, r.newRange.size, 0, k);
  }

  /** The big view's int and long readings: `intValue()` and `longValue()` of the adapted value. */
  function BigRerangedIntHash(r: Reranging, h: int): (x: Result<int32>)
    ensures x.Ok? <==> BigAdapt(r, h).Ok?
    ensures x.Ok? ==> x.value % TWO_32 == BigAdapt(r, h).value % TWO_32
  {
    var a := BigAdapt(r, h);
    if a.Err? then Err(a.error) else Ok(Wrap32(a.value))
  }

  function BigRerangedLongHash(r: Reranging, h: int): (x: Result<int64>)
    ensures x.Ok? <==> BigAdapt(r, h).Ok?
    ensures x.Ok? ==> x.value % TWO_64 == BigAdapt(r, h).value % TWO_64
  {
    var a := BigAdapt(r, h);
    if a.Err? then Err(a.error) else Ok(Wrap64(a.value))
  }

  /** The int reading agrees with the long reading narrowed. */
  lemma BigRerangedIntThroughLong(r: Reranging, h: int)
    ensures BigRerangedIntHash(r, h).Ok? ==> BigRerangedIntHash(r, h).value == Wrap32(BigRerangedLongHash(r, h).value)
  {
    var a := BigAdapt(r, h);
    if a.Ok? {
      Wrap32OfWrap64(a.value);
    }
  }

  /** The `adapt` overloads that `LongRerangedHash` and `BigRerangedHasher` do not support. */
  function UnsupportedAdapt<T>(h: T): (x: Result<T>)
    ensures x.Err? && x.error == UnsupportedOperation
  {
    Err(UnsupportedOperation)
  }

  // ---------------------------------------------------------------------------
  // Fixed-width arithmetic

  /** m is the modulus of a two's-complement width: 2^32 or 2^64. */
  predicate IsWidth(m: int)
  {
    m == TWO_32 || m == TWO_64
  }

  /** x is a value of the width m. */
  predicate InWidth(x: int, m: int)
    requires IsWidth(m)
  {
    -(m / 2) <= x < m / 2
  }

  /**
   * `h -= oldMin; if (isSmaller) h = h % newSize; return h + newMin;` in
   * the width m, with constants of that width: Java's `%` keeps the sign
   * of the difference, and a zero size throws.
   */
  function ModularAdapt(m: int, oldMin: int, newMin: int, newSize: int, isSmaller: bool, h: int): (x: Result<int>)
    requires IsWidth(m) && InWidth(oldMin, m) && InWidth(newMin, m) && InWidth(newSize, m)
    ensures isSmaller && newSize == 0 ==> x == Err(Arithmetic)
    ensures x.Ok? <==> !isSmaller || newSize != 0
    ensures x.Ok? ==> InWidth(x.value, m)
  {
    if !isSmaller then Ok(WrapTo(WrapTo(h - oldMin, m) + newMin, m))
    else if newSize == 0 then Err(Arithmetic)
    else Ok(WrapTo(JavaRem(WrapTo(h - oldMin, m), newSize) + newMin, m))
  }

  /** Two wraps on the way cost nothing: the result is the shift wrapped once. */
  lemma ModularShift(m: int, oldMin: int, newMin: int, h: int)
    requires IsWidth(m)
    ensures WrapTo(WrapTo(h - oldMin, m) + newMin, m) == WrapTo(h - oldMin + newMin, m)
  {
    var d := WrapTo(h - oldMin, m);
    CongruentApart(h - oldMin, d, m);
    ModAddMultiple(d + newMin, m, (h - oldMin) / m - d / m);
    WrapToCongruent(d + newMin, h - oldMin + newMin, m);
  }

  /** Java's `%` of a negative dividend by a positive size: in (-size, 0], and zero exactly on a multiple. */
  lemma NegativeRem(d: int, n: int)
    requires d < 0 && n > 0
    ensures -n < JavaRem(d, n) <= 0
    ensures JavaRem(d, n) == 0 <==> d % n == 0
  {
    var rem := JavaRem(d, n);
    var k := (d - rem) / n;
    assert d - rem == n * k + (d - rem) % n;
    if rem == 0 {
      DivModUnique(d, n, k, 0);
    } else {
      DivModUnique(d, n, k - 1, rem + n);
    }
  }

  /** A difference that does not overflow is reduced exactly: the remainder plus the new minimum. */
  lemma ModularReduceExact(m: int, oldMin: int, newMin: int, newSize: int, h: int)
    requires IsWidth(m) && InWidth(oldMin, m) && InWidth(newMin, m) && InWidth(newSize, m)
    requires 0 < newSize && -(m / 2) <= newMin - newSize && newMin + newSize <= m / 2
    requires InWidth(h - oldMin, m)
    ensures ModularAdapt(m, oldMin, newMin, newSize, true, h) == Ok(JavaRem(h - oldMin, newSize) + newMin)
  {
    WrapsVanish(m, h - oldMin, newSize, newMin);
  }

  /** Neither wrap changes a difference and a shifted remainder that stay within the width. */
  lemma WrapsVanish(m: int, d: int, n: int, base: int)
    requires IsWidth(m) && InWidth(d, m)
    requires 0 < n && -(m / 2) <= base - n && base + n <= m / 2
    ensures WrapTo(JavaRem(WrapTo(d, m), n) + base, m) == JavaRem(d, n) + base
  {
    WrapToInRange(d, m);
    WrapToInRange(JavaRem(d, n) + base, m);
  }

  /**
   * A difference that does not overflow: reduced when non-negative, it
   * lands in [newMin, newMin + newSize) at its offset modulo the size;
   * reduced when negative, it lands in (newMin - newSize, newMin], strictly
   * below newMin unless the size divides it.
   */
  lemma ModularReduce(m: int, oldMin: int, newMin: int, newSize: int, h: int)
    requires IsWidth(m) && InWidth(oldMin, m) && InWidth(newMin, m) && InWidth(newSize, m)
    requires 0 < newSize && -(m / 2) <= newMin - newSize && newMin + newSize <= m / 2
    requires InWidth(h - oldMin, m)
    ensures ModularAdapt(m, oldMin, newMin, newSize, true, h).Ok?
    ensures h - oldMin >= 0 ==>
      var v := ModularAdapt(m, oldMin, newMin, newSize, true, h).value;
      newMin <= v < newMin + newSize && v - newMin == (h - oldMin) % newSize
    ensures h - oldMin < 0 ==>
      var v := ModularAdapt(m, oldMin, newMin, newSize, true, h).value;
      newMin - newSize < v <= newMin && (v < newMin <==> (h - oldMin) % newSize != 0)
  {
    ModularReduceExact(m, oldMin, newMin, newSize, h);
    if h - oldMin >= 0 {
      JavaRemNonNegative(h - oldMin, newSize);
    } else {
      NegativeRem(h - oldMin, newSize);
    }
  }

  /** The width's constants are the range's own when the ranges fit the width. */
  predicate FitsWidth(r: Reranging, m: int)
    requires IsWidth(m)
  {
    InWidth(r.oldRange.min, m) && InWidth(r.newRange.min, m) && InWidth(r.newRange.size, m) &&
    0 < r.newRange.size && -(m / 2) <= r.newRange.min - r.newRange.size &&
    r.newRange.min + r.newRange.size <= m / 2
  }

  // ---------------------------------------------------------------------------
  // `long` arithmetic: `LongRerangedHash.adapt(long)` and `LongRerangedHasher`

  /** `adapt(long)` with the constants read with `longValue()`. */
  function LongAdapt(r: Reranging, h: int64): (x: Result<int64>)
  {
    var a := ModularAdapt(TWO_64, Wrap64(r.oldRange.min), Wrap64(r.newRange.min), Wrap64(r.newRange.size), r.isSmaller, h);
    if a.Err? then Err(a.error) else Ok(a.value)
  }

  /** `intHashValue` of both long rerangings: the adapted long narrowed. */
  function LongRerangedIntHash(r: Reranging, h: int64): (x: Result<int32>)
  {
    var a := LongAdapt(r, h);
    if a.Err? then Err(a.error) else Ok(Wrap32(a.value))
  }

  /** Not smaller: the long result is the shift by newMin - oldMin, wrapped once, and the int result its low 32 bits. */
  lemma LongAdaptShift(r: Reranging, h: int64)
    requires !r.isSmaller
    ensures LongAdapt(r, h) == Ok(Wrap64(h - r.oldRange.min + r.newRange.min))
    ensures LongRerangedIntHash(r, h) == Ok(Wrap32(h - r.oldRange.min + r.newRange.min))
  {
    var o := Wrap64(r.oldRange.min);
    var n := Wrap64(r.newRange.min);
    ModularShift(TWO_64, o, n, h);
    NarrowedShift(TWO_64, r.oldRange.min, r.newRange.min, h);
    Wrap32OfWrap64(h - r.oldRange.min + r.newRange.min);
  }

  /** Narrowing the constants first changes nothing modulo the width. */
  lemma NarrowedShift(m: int, oldMin: int, newMin: int, h: int)
    requires IsWidth(m)
    ensures WrapTo(h - WrapTo(oldMin, m) + WrapTo(newMin, m), m) == WrapTo(h - oldMin + newMin, m)
  {
    var o := WrapTo(oldMin, m);
    var n := WrapTo(newMin, m);
    CongruentApart(oldMin, o, m);
    CongruentApart(newMin, n, m);
    var q := (newMin / m - n / m) - (oldMin / m - o / m);
    assert h - oldMin + newMin == (h - o + n) + m * q;
    ModAddMultiple(h - o + n, m, q);
    WrapToCongruent(h - o + n, h - oldMin + newMin, m);
  }

  /** Smaller, with ranges that fit a long: the reduction of `ModularReduce`, and a zero-free size. */
  lemma LongAdaptSmaller(r: Reranging, h: int64)
    requires r.isSmaller && FitsWidth(r, TWO_64) && InWidth(h - r.oldRange.min, TWO_64)
    ensures LongAdapt(r, h).Ok?
    ensures h - r.oldRange.min >= 0 ==>
      r.newRange.min <= LongAdapt(r, h).value < r.newRange.min + r.newRange.size &&
      LongAdapt(r, h).value - r.newRange.min == (h - r.oldRange.min) % r.newRange.size
    ensures h - r.oldRange.min < 0 ==>
      r.newRange.min - r.newRange.size < LongAdapt(r, h).value <= r.newRange.min &&
      (LongAdapt(r, h).value < r.newRange.min <==> (h - r.oldRange.min) % r.newRange.size != 0)
  {
    WrapToInRange(r.oldRange.min, TWO_64);
    WrapToInRange(r.newRange.min, TWO_64);
    WrapToInRange(r.newRange.size, TWO_64);
    ModularReduce(TWO_64, r.oldRange.min, r.newRange.min, r.newRange.size, h);
  }

  // ---------------------------------------------------------------------------
  // `int` arithmetic: `IntRerangedHasher`

  /** `intHashValue`: the int hash adapted in int arithmetic with the constants read with `intValue()`. */
  function IntRerangedIntHash(r: Reranging, h: int32): (x: Result<int32>)
  {
    var a := ModularAdapt(TWO_32, Wrap32(r.oldRange.min), Wrap32(r.newRange.min), Wrap32(r.newRange.size), r.isSmaller, h);
    if a.Err? then Err(a.error) else Ok(a.value)
  }

  /** `longHashValue`: the long hash adapted in long arithmetic with the same int constants. */
  function IntRerangedLongHash(r: Reranging, h: int64): (x: Result<int64>)
  {
    var a := ModularAdapt(TWO_64, Wrap32(r.oldRange.min), Wrap32(r.newRange.min), Wrap32(r.newRange.size), r.isSmaller, h);
    if a.Err? then Err(a.error) else Ok(a.value)
  }

  /** Not smaller: the int view is the shift by newMin - oldMin, wrapped once. */
  lemma IntRerangedShift(r: Reranging, h: int32)
    requires !r.isSmaller
    ensures IntRerangedIntHash(r, h) == Ok(Wrap32(h - r.oldRange.min + r.newRange.min))
  {
    ModularShift(TWO_32, Wrap32(r.oldRange.min), Wrap32(r.newRange.min), h);
    NarrowedShift(TWO_32, r.oldRange.min, r.newRange.min, h);
  }

  /**
   * Not smaller: the long view is the same shift in long arithmetic,
   * provided the minimums fit an int, as the narrowed constants then are
   * the range's own.
   */
  lemma IntRerangedLongShift(r: Reranging, l: int64)
    requires !r.isSmaller && InWidth(r.oldRange.min, TWO_32) && InWidth(r.newRange.min, TWO_32)
    ensures IntRerangedLongHash(r, l) == Ok(Wrap64(l - r.oldRange.min + r.newRange.min))
  {
    WrapToInRange(r.oldRange.min, TWO_32);
    WrapToInRange(r.newRange.min, TWO_32);
    ModularShift(TWO_64, r.oldRange.min, r.newRange.min, l);
  }

  /** Smaller, with ranges that fit an int: the reduction of `ModularReduce` for the int view. */
  lemma IntRerangedSmaller(r: Reranging, h: int32)
    requires r.isSmaller && FitsWidth(r, TWO_32) && InWidth(h - r.oldRange.min, TWO_32)
    ensures IntRerangedIntHash(r, h).Ok?
    ensures h - r.oldRange.min >= 0 ==>
      r.newRange.min <= IntRerangedIntHash(r, h).value < r.newRange.min + r.newRange.size &&
      IntRerangedIntHash(r, h).value - r.newRange.min == (h - r.oldRange.min) % r.newRange.size
    ensures h - r.oldRange.min < 0 ==>
      r.newRange.min - r.newRange.size < IntRerangedIntHash(r, h).value <= r.newRange.min &&
      (IntRerangedIntHash(r, h).value < r.newRange.min <==> (h - r.oldRange.min) % r.newRange.size != 0)
  {
    WrapToInRange(r.oldRange.min, TWO_32);
    WrapToInRange(r.newRange.min, TWO_32);
    WrapToInRange(r.newRange.size, TWO_32);
    ModularReduce(TWO_32, r.oldRange.min, r.newRange.min, r.newRange.size, h);
  }

  /** Smaller, with ranges that fit an int: the long view reduces a long difference the same way. */
  lemma IntRerangedLongSmaller(r: Reranging, l: int64)
    requires r.isSmaller && FitsWidth(r, TWO_32) && InWidth(l - r.oldRange.min, TWO_64)
    ensures IntRerangedLongHash(r, l).Ok?
    ensures l - r.oldRange.min >= 0 ==>
      r.newRange.min <= IntRerangedLongHash(r, l).value < r.newRange.min + r.newRange.size &&
      IntRerangedLongHash(r, l).value - r.newRange.min == (l - r.oldRange.min) % r.newRange.size
    ensures l - r.oldRange.min < 0 ==>
      r.newRange.min - r.newRange.size < IntRerangedLongHash(r, l).value <= r.newRange.min &&
      (IntRerangedLongHash(r, l).value < r.newRange.min <==> (l - r.oldRange.min) % r.newRange.size != 0)
  {
    WrapToInRange(r.oldRange.min, TWO_32);
    WrapToInRange(r.newRange.min, TWO_32);
    WrapToInRange(r.newRange.size, TWO_32);
    ModularReduce(TWO_64, r.oldRange.min, r.newRange.min, r.newRange.size, l);
  }

  // ---------------------------------------------------------------------------
  // `LongRerangedHash`'s int arrays: the delegate's longs, narrowed and not adapted

  /**
   * `hashAsInts(value, array)`, given the longs the delegate wrote into a
   * new array of the same length: they are narrowed into the caller's array.
   */
  method LongRerangedHashInto(longs: array<int64>, target: array<int32>) returns (r: array<int32>)
    requires longs.Length == target.Length
    modifies target
    ensures r == target && target[..] == Narrowed(longs[..])
  {
    r := CopyLongsToInts(longs, target);
    assert longs[..target.Length] == longs[..];
  }

  /**
   * `hashAsInts(value, multiplicity)`, given the longs the delegate returned:
   * a new array of their length holding them narrowed.
   */
  method LongRerangedHashOf(longs: array<int64>) returns (r: array<int32>)
    ensures fresh(r) && r[..] == Narrowed(longs[..])
  {
    var ints := new int32[longs.Length];
    r := CopyLongsToInts(longs, ints);
    assert longs[..ints.Length] == longs[..];
  }
}
