// The double-hashing generators `ints()` and `longs()`: a seed is spread over
// all bits, and the k-th value of the unbounded cursor is `h ^ (k * probe)`.

module DoubleHashing {
  import opened JavaMath
  import opened Results
  import opened HashSizes
  import opened Codecs
  import opened Hashers

  /** The variant of the single-word Wang/Jenkins mix that spreads an int seed. */
  function Spread32(x: bv32): bv32
  {
    var h0 := x + ((x << 15) ^ 0xffff_cd7d);
    var h1 := h0 ^ (h0 >> 10);
    var h2 := h1 + (h1 << 3);
    var h3 := h2 ^ (h2 >> 6);
    var h4 := h3 + ((h3 << 2) + (h3 << 14));
    h4 ^ (h4 >> 16)
  }

  /** The fast-hash mix of a long seed: arithmetic shifts and a wrapping multiply. */
  function Spread64(x: bv64): bv64
  {
    var h0 := x ^ ShiftRightSigned64(x, 23);
    var h1 := h0 * 0x2127_599b_f432_5c37;
    h1 ^ ShiftRightSigned64(h1, 47)
  }

  /** `1 + x` for x in [0, 2^31): at 2^31 - 1 it wraps to `Integer.MIN_VALUE`. */
  lemma WrapIncrement32(x: int)
    requires 0 <= x <= INT_MAX
    ensures x < INT_MAX ==> Wrap32(1 + x) == 1 + x
    ensures x == INT_MAX ==> Wrap32(1 + x) == INT_MIN
  {
    if x < INT_MAX {
      Wrap32Id(1 + x);
    } else {
      DivModUnique(1 + x, TWO_32, 0, 1 + x);
    }
  }

  /**
   * The int probe: 1 for `Integer.MIN_VALUE`, otherwise `1 + Math.abs(seed)`
   * in int arithmetic. It is never zero, so consecutive reads differ.
   */
  function IntsProbe(seed: int32): (r: int32)
    ensures r != 0
    ensures seed == INT_MIN ==> r == 1
    ensures seed != INT_MIN && seed != INT_MAX && seed != -INT_MAX ==>
      r == 1 + (if seed >= 0 then seed else -seed)
    ensures seed == INT_MAX || seed == -INT_MAX ==> r == INT_MIN
  {
    if seed == INT_MIN then 1
    else
      WrapIncrement32(Abs32(seed));
      Wrap32(1 + Abs32(seed))
  }

  /** The k-th int read (from 0) of the cursor seeded with `seed`: the counter and the product wrap at 32 bits. */
  function IntsRead(seed: int32, k: int): int32
  {
    IntsElement(Spread32(ToBv32(seed)), Wrap32(k), IntsProbe(seed))
  }

  /** `h ^ i * probe` in int arithmetic. */
  function IntsElement(h: bv32, i: int32, probe: int32): int32
  {
    FromBv32(h ^ ToBv32(Wrap32(i * probe)))
  }

  /** The first read is the spread seed itself. */
  lemma IntsFirstRead(seed: int32)
    ensures IntsRead(seed, 0) == FromBv32(Spread32(ToBv32(seed)))
  {
    assert Wrap32(0) == 0 by {
      Wrap32Id(0);
    }
    IntsElementAtZero(Spread32(ToBv32(seed)), IntsProbe(seed));
  }

  lemma IntsElementAtZero(h: bv32, probe: int32)
    ensures IntsElement(h, 0, probe) == FromBv32(h)
  {
    assert Wrap32(0 * probe) == 0 by {
      Wrap32Id(0);
    }
    assert ToBv32(0) == 0;
  }

  /** Reading past a counter wrap: the cursor repeats with period 2^32. */
  lemma IntsPeriod(seed: int32, k: int)
    ensures IntsRead(seed, k + TWO_32) == IntsRead(seed, k)
  {
    ModAddMultiple(k, TWO_32, 1);
    WrapToCongruent(k + TWO_32, k, TWO_32);
  }

  /** `IntsHasher.MultiHashCode`: `probe` and `h` fixed at construction, `i` counting the reads. */
  class IntsMultiHashCode {
    const size: HashSize
    ghost const seed: int32
    const probe: int32
    const h: bv32
    var i: int32
    ghost var count: nat

    ghost predicate Valid()
      reads this
    {
      i == Wrap32(count)
    }

    /** The fixed fields come from the seed; as they never change, this needs no frame. */
    ghost predicate Seeded()
    {
      probe == IntsProbe(seed) && h == Spread32(ToBv32(seed))
    }

    /** `new MultiHashCode(getSize(), hasher.hash(value).intValue())`. */
    constructor (size: HashSize, hashCode: int32)
      ensures this.size == size && seed == hashCode && count == 0 && Valid() && Seeded()
    {
      this.size := size;
      seed := hashCode;
      probe := IntsProbe(hashCode);
      h := Spread32(ToBv32(hashCode));
      i := 0;
      count := 0;
    }

    predicate HasNext() { true }

    /** `h ^ (i++) * probe`. */
    method IntValue() returns (r: int32)
      requires Valid() && Seeded()
      modifies this
      ensures Valid() && count == old(count) + 1
      ensures r == IntsRead(seed, old(count))
    {
      r := IntsElement(h, i, probe);
      Advance();
    }

    /** `i++`, with the int counter wrapping. */
    method Advance()
      requires Valid()
      modifies this
      ensures Valid() && count == old(count) + 1
    {
      Wrap32Succ(count);
      i := Wrap32(i + 1);
      count := count + 1;
    }

    /** The next int, sign-extended. */
    method LongValue() returns (r: int64)
      requires Valid() && Seeded()
      modifies this
      ensures Valid() && count == old(count) + 1
      ensures r == IntsRead(seed, old(count))
    {
      var v := IntValue();
      r := v;
    }

    method BigValue() returns (r: int)
      requires Valid() && Seeded()
      modifies this
      ensures Valid() && count == old(count) + 1
      ensures r == IntsRead(seed, old(count))
    {
      var v := IntValue();
      r := v;
    }

    /** `trim(intToBytes(intValue()))`, with `size.getBytes()` as a parameter. */
    method BytesValue(sizeBytes: int32) returns (r: Result<seq<int8>>)
      requires Valid() && Seeded()
      modifies this
      ensures Valid() && count == old(count) + 1
      ensures r == Trim(IntToBytes(IntsRead(seed, old(count))), sizeBytes)
    {
      var v := IntValue();
      r := Trim(IntToBytes(v), sizeBytes);
    }
  }

  /**
   * The long probe: 1 for `Long.MIN_VALUE`, otherwise `1 + Math.abs(seed)`.
   * The seed is an int widened to a long, so the sum never wraps.
   */
  function LongsProbe(seed: int64): (r: int64)
    ensures seed == LONG_MIN ==> r == 1
    ensures INT_MIN <= seed <= INT_MAX ==> r == 1 + (if seed >= 0 then seed else -seed)
    ensures INT_MIN <= seed <= INT_MAX ==> 1 <= r <= TWO_31 + 1
  {
    if seed == LONG_MIN then 1
    else
      if INT_MIN <= seed <= INT_MAX then Wrap64Id(1 + Abs64(seed)); Wrap64(1 + Abs64(seed))
      else Wrap64(1 + Abs64(seed))
  }

  /**
   * The k-th long read of the cursor seeded with the int `seed`. The counter is
   * an int, so it wraps at 2^32 before it is widened and multiplied.
   */
  function LongsRead(seed: int32, k: int): int64
  {
    LongsElement(Spread64(ToBv64(seed)), Wrap32(k), LongsProbe(seed))
  }

  /** `h ^ i * probe` in long arithmetic. */
  function LongsElement(h: bv64, i: int64, probe: int64): int64
  {
    FromBv64(h ^ ToBv64(Wrap64(i * probe)))
  }

  /** The first read is the spread seed. */
  lemma LongsFirstRead(seed: int32)
    ensures LongsRead(seed, 0) == FromBv64(Spread64(ToBv64(seed)))
  {
    assert Wrap32(0) == 0 by {
      Wrap32Id(0);
    }
    LongsElementAtZero(Spread64(ToBv64(seed)), LongsProbe(seed));
  }

  lemma LongsElementAtZero(h: bv64, probe: int64)
    ensures LongsElement(h, 0, probe) == FromBv64(h)
  {
    assert Wrap64(0 * probe) == 0 by {
      Wrap64Id(0);
    }
    assert ToBv64(0) == 0;
  }

  lemma LongsReadOfSpread(h: bv64, seed: int32, k: int)
    requires h == Spread64(ToBv64(seed))
    ensures LongsElement(h, Wrap32(k), LongsProbe(seed)) == LongsRead(seed, k)
  {
  }

  /** Below 2^31 reads the counter is exact: the k-th read is `h ^ (k * probe)` in long arithmetic. */
  lemma LongsReadExact(seed: int32, k: nat)
    requires k <= INT_MAX
    ensures LongsRead(seed, k) == LongsElement(Spread64(ToBv64(seed)), k, LongsProbe(seed))
  {
    Wrap32Id(k);
  }

  /** Although the values are 64 bits wide, the int counter makes the cursor repeat after 2^32 reads. */
  lemma LongsPeriod(seed: int32, k: int)
    ensures LongsRead(seed, k + TWO_32) == LongsRead(seed, k)
  {
    ModAddMultiple(k, TWO_32, 1);
    WrapToCongruent(k + TWO_32, k, TWO_32);
  }

  /** `LongsHasher.MultiHashCode`: `probe` and the spread seed `h` fixed at construction. */
  class LongsMultiHashCode {
    const size: HashSize
    ghost const seed: int32
    const probe: int64
    const h: bv64
    var i: int32
    ghost var count: nat

    ghost predicate Valid()
      reads this
    {
      i == Wrap32(count)
    }

    /** The fixed fields come from the seed. */
    ghost predicate Seeded()
    {
      probe == LongsProbe(seed) && h == Spread64(ToBv64(seed))
    }

    /** `new MultiHashCode(getSize(), hasher.hash(value).intValue())`: the int seed is widened to a long. */
    constructor (size: HashSize, hashCode: int32)
      ensures this.size == size && seed == hashCode && count == 0 && Valid() && Seeded()
    {
      this.size := size;
      seed := hashCode;
      probe := LongsProbe(hashCode);
      h := Spread64(ToBv64(hashCode));
      i := 0;
      count := 0;
    }

    predicate HasNext() { true }

    /** `h ^ (i++) * probe`, the int counter widened to a long. */
    method LongValue() returns (r: int64)
      requires Valid() && Seeded()
      modifies this
      ensures Valid() && count == old(count) + 1
      ensures r == LongsRead(seed, old(count))
    {
      LongsReadOfSpread(h, seed, count);
      r := LongsElement(h, i, probe);
      Advance();
    }

    /** `i++`, with the int counter wrapping. */
    method Advance()
      requires Valid()
      modifies this
      ensures Valid() && count == old(count) + 1
    {
      Wrap32Succ(count);
      i := Wrap32(i + 1);
      count := count + 1;
    }

    /** The next long, which must fit an int: an ArithmeticException otherwise, after the cursor has moved. */
    method IntValue() returns (r: Result<int32>)
      requires Valid() && Seeded()
      modifies this
      ensures Valid() && count == old(count) + 1
      ensures r.Ok? <==> INT_MIN <= LongsRead(seed, old(count)) <= INT_MAX
      ensures r.Ok? ==> r.value == LongsRead(seed, old(count))
      ensures r.Err? ==> r.error == Arithmetic
    {
      var longValue := LongValue();
      var intValue := Wrap32(longValue);
      Wrap32Fits(longValue);
      if intValue != longValue {
        return Err(Arithmetic);
      }
      return Ok(intValue);
    }

    /** The next long, signed. */
    method BigValue() returns (r: int)
      requires Valid() && Seeded()
      modifies this
      ensures Valid() && count == old(count) + 1
      ensures r == LongsRead(seed, old(count))
    {
      var v := LongValue();
      r := v;
    }

    /** Eight big-endian bytes of the next long. */
    method BytesValue() returns (r: seq<int8>)
      requires Valid() && Seeded()
      modifies this
      ensures Valid() && count == old(count) + 1
      ensures |r| == 8 && Wrap64(BigFromBytes(r)) == LongsRead(seed, old(count))
    {
      var v := LongValue();
      r := LongToBytes(v);
      LongRoundTrip(v);
    }
  }

  /**
   * `IntsHasher.hash(value)`: a fresh cursor of the int-wide size seeded with
   * `seedView`, the first int view of the resized hasher's code for the value.
   */
  method IntsHash(h: Hasher, seedView: int32) returns (code: IntsMultiHashCode)
    requires h.Ints? && h.Valid()
    ensures fresh(code) && code.size == h.GetSize() && code.size == INT_SIZE
    ensures code.seed == seedView && code.count == 0 && code.Valid() && code.Seeded()
  {
    code := new IntsMultiHashCode(h.GetSize(), seedView);
  }

  /** `LongsHasher.hash(value)`: the seed is again the int view, not the long view. */
  method LongsHash(h: Hasher, seedView: int32) returns (code: LongsMultiHashCode)
    requires h.Longs? && h.Valid()
    ensures fresh(code) && code.size == h.GetSize() && code.size == LONG_SIZE
    ensures code.seed == seedView && code.count == 0 && code.Valid() && code.Seeded()
  {
    code := new LongsMultiHashCode(h.GetSize(), seedView);
  }
}
