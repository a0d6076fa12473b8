// The legacy `CondensingWriteStream`: every primitive written is folded into
// one long, `value * 31 + v`. The same fold seeds the default PRNG hash
// (`RandomHash.LongSeedingStream`), which reuses the step functions below.

/** The fold steps on their own, so that proofs about them see only their contracts' arithmetic. */
module CondensingSteps {
  import opened JavaMath

  // ---------------------------------------------------------------------------
  // The fold steps, one per primitive

  /**
   * `writeByte`: `value * 31 + v & 0xff`. Java's `+` binds tighter than `&`,
   * so the mask applies to the whole sum and the result is its low byte.
   */
  function ByteStep(c: int64, v: int8): (r: int64)
    ensures 0 <= r < TWO_8
    ensures r == (c * 31 + v) % TWO_8
  {
    var sum := LongStep(c, v);
    LowMaskValue(sum, 8);
    Pow2Of8();
    SameLowBits(sum, c * 31 + v, TWO_8, TWO_64 / TWO_8);
    And64(sum, 0xff)
  }

  /** `writeShort`: `value * 31 + v & 0xffff`, the low 16 bits of the sum. */
  function ShortStep(c: int64, v: int16): (r: int64)
    ensures 0 <= r < TWO_16
    ensures r == (c * 31 + v) % TWO_16
  {
    var sum := LongStep(c, v);
    LowMaskValue(sum, 16);
    Pow2Of32();
    SameLowBits(sum, c * 31 + v, TWO_16, TWO_64 / TWO_16);
    And64(sum, 0xffff)
  }

  /** `writeInt`: `value * 31 + v & 0xffffffffL`, the low 32 bits of the sum. */
  function IntStep(c: int64, v: int32): (r: int64)
    ensures 0 <= r < TWO_32
    ensures r == (c * 31 + v) % TWO_32
  {
    var sum := LongStep(c, v);
    LowMaskValue(sum, 32);
    Pow2Of32();
    SameLowBits(sum, c * 31 + v, TWO_32, TWO_64 / TWO_32);
    And64(sum, 0xffff_ffff)
  }

  /**
   * `writeLong`: a plain wrapping `value * 31 + v`. `writeChar` is the same
   * step on the char widened unsigned to a long.
   */
  function LongStep(c: int64, v: int64): (r: int64)
    ensures r % TWO_64 == (c * 31 + v) % TWO_64
  {
    Wrap64(c * 31 + v)
  }

  /** Values congruent modulo 2^64 agree modulo every m that divides it. */
  lemma SameLowBits(x: int, y: int, m: int, k: int)
    requires m > 0 && k > 0 && m * k == TWO_64 && x % TWO_64 == y % TWO_64
    ensures x % m == y % m
  {
    ModModMultiple(x, m, k);
    ModModMultiple(y, m, k);
  }

  /** `x & (2^k - 1)` on a long, for a mask of at most 32 bits, is the residue mod 2^k. */
  lemma LowMaskValue(x: int64, k: nat)
    requires k <= 32
    ensures Pow2(k) <= TWO_32
    ensures And64(x, Pow2(k) - 1) == x % Pow2(k)
  {
    Pow2Constants();
    Pow2Monotone(k, 32);
    var m := Pow2(k) - 1;
    DivModUnique(m, Pow2(64), 0, m);
    AndBitsLowMask(x, m, 64, k);
    WrapToInRange(AndBits(x, m, 64), TWO_64);
  }

  /**
   * The byte step with the mask on the byte alone, `value * 31 + (v & 0xff)`,
   * as `writeLong` and `writeChar` fold the whole value in.
   */
  function ByteStepUnsigned(c: int64, v: int8): (r: int64)
    ensures r % TWO_64 == (c * 31 + Unsigned8(v)) % TWO_64
  {
    Wrap64(c * 31 + Unsigned8(v))
  }
}

module CondensingStreams {
  import opened JavaMath
  import opened CondensingSteps

  // ---------------------------------------------------------------------------
  // What survives a step

  /** `value * 31 + v` modulo m depends on the old value only modulo m. */
  lemma StepKeepsResidue(c1: int, c2: int, v: int, m: int)
    requires m > 0 && c1 % m == c2 % m
    ensures (c1 * 31 + v) % m == (c2 * 31 + v) % m
  {
    CongruentApart(c1, c2, m);
    var q := c1 / m - c2 / m;
    assert c1 * 31 + v == (c2 * 31 + v) + m * (31 * q);
    ModAddMultiple(c2 * 31 + v, m, 31 * q);
  }

  /**
   * After a byte write only the old value modulo 256 matters: two values
   * that agree in their low byte condense to the same value.
   */
  lemma ByteStepKeepsLowByte(c1: int64, c2: int64, v: int8)
    requires c1 % TWO_8 == c2 % TWO_8
    ensures ByteStep(c1, v) == ByteStep(c2, v)
  {
    StepKeepsResidue(c1, c2, v, TWO_8);
  }

  /** A short write keeps the old value modulo 2^16 and nothing more. */
  lemma ShortStepKeepsLowShort(c1: int64, c2: int64, v: int16)
    requires c1 % TWO_16 == c2 % TWO_16
    ensures ShortStep(c1, v) == ShortStep(c2, v)
  {
    StepKeepsResidue(c1, c2, v, TWO_16);
  }

  /** An int write keeps the old value modulo 2^32 and nothing more. */
  lemma IntStepKeepsLowInt(c1: int64, c2: int64, v: int32)
    requires c1 % TWO_32 == c2 % TWO_32
    ensures IntStep(c1, v) == IntStep(c2, v)
  {
    StepKeepsResidue(c1, c2, v, TWO_32);
  }

  /**
   * The unmasked steps lose nothing: 31 is odd, so multiplying by it is a
   * bijection on longs, and distinct old values stay distinct.
   */
  lemma WrappingStepInjective(c1: int64, c2: int64, v: int)
    requires Wrap64(c1 * 31 + v) == Wrap64(c2 * 31 + v)
    ensures c1 == c2
  {
    var x1 := c1 * 31 + v;
    var x2 := c2 * 31 + v;
    CongruentApart(x1, x2, TWO_64);
    var q := x1 / TWO_64 - x2 / TWO_64;
    var d := c1 - c2;
    assert 31 * d == TWO_64 * q;
    // 31 * INV == 1 + 29 * 2^64, so INV undoes the multiplication modulo 2^64.
    var inv := 0xef7b_def7_bdef_7bdf;
    assert 31 * inv == 1 + 29 * TWO_64;
    calc {
      d + 29 * TWO_64 * d;
      (1 + 29 * TWO_64) * d;
      inv * (31 * d);
      inv * (TWO_64 * q);
    }
    assert d == TWO_64 * (inv * q - 29 * d);
  }

  lemma LongStepInjective(c1: int64, c2: int64, v: int64)
    requires LongStep(c1, v) == LongStep(c2, v)
    ensures c1 == c2
  {
    WrappingStepInjective(c1, c2, v);
  }

  // ---------------------------------------------------------------------------
  // The masked byte step against the evidently intended one

  /** Two steps of `x * 31 + v` modulo 256 from a multiple of 256, as plain arithmetic. */
  lemma RunArith(c: int, a: int, b: int, v: int)
    requires c % TWO_8 == 0
    requires a == (c * 31 + v) % TWO_8
    requires b == (a * 31 + v) % TWO_8
    ensures b == (32 * v) % TWO_8
  {
    StepKeepsResidue(c, 0, v, TWO_8);
    assert a == v % TWO_8;
    StepKeepsResidue(a, v, v, TWO_8);
  }

  /** From a multiple of 256, writing the byte v twice condenses to 32 * v modulo 256. */
  lemma ByteRunFromMultiple(c: int64, v: int8)
    requires c % TWO_8 == 0
    ensures ByteStep(ByteStep(c, v), v) == (32 * v) % TWO_8
  {
    var a := ByteStep(c, v);
    var b := ByteStep(a, v);
    RunArith(c, a, b, v);
  }

  lemma ByteRunsCollide(c: int64, v: int8, w: int8)
    requires c % TWO_8 == 0 && v % 8 == 0 && w % 8 == 0
    ensures ByteStep(ByteStep(c, v), v) == ByteStep(ByteStep(c, w), w) == 0
  {
    ByteRunFromMultiple(c, v);
    ByteRunFromMultiple(c, w);
    EightfoldRun(v);
    EightfoldRun(w);
  }

  lemma EightfoldRun(v: int)
    requires v % 8 == 0
    ensures (32 * v) % TWO_8 == 0
  {
    ModAddMultiple(0, TWO_8, v / 8);
    assert 32 * v == TWO_8 * (v / 8);
  }

  /** The intended step keeps the whole old value. */
  lemma ByteStepUnsignedInjective(c1: int64, c2: int64, v: int8)
    requires ByteStepUnsigned(c1, v) == ByteStepUnsigned(c2, v)
    ensures c1 == c2
  {
    WrappingStepInjective(c1, c2, Unsigned8(v));
  }

  /** Under the intended step the runs [8, 8] and [0, 0] stay apart from every start. */
  lemma ByteRunsDistinct(c: int64)
    ensures ByteStepUnsigned(ByteStepUnsigned(c, 8), 8) != ByteStepUnsigned(ByteStepUnsigned(c, 0), 0)
  {
    var a := ByteStepUnsigned(c, 8);
    var b := ByteStepUnsigned(c, 0);
    CongruentApart(a, c * 31 + 8, TWO_64);
    CongruentApart(b, c * 31, TWO_64);
    var x: int, y: int := a as int * 31 + 8, b as int * 31;
    if Wrap64(x) == Wrap64(y) {
      CongruentApart(x, y, TWO_64);
      assert false;
    }
  }

  /** While the sum still fits in a byte, the masked and the intended step agree. */
  lemma ByteStepsAgreeWhileSmall(c: int64, v: int8)
    requires v >= 0 && 0 <= c * 31 + v < TWO_8
    ensures ByteStep(c, v) == ByteStepUnsigned(c, v) == c * 31 + v
  {
    var x := c * 31 + v;
    SmallResidue(x);
    SmallResidue(v);
    assert Unsigned8(v) == v;
    Wrap64Id(x);
    assert ByteStepUnsigned(c, v) == Wrap64(x);
  }

  lemma SmallResidue(x: int)
    requires 0 <= x < TWO_8
    ensures x % TWO_8 == x
  {
  }

  // ---------------------------------------------------------------------------
  // The stream

  /** `CondensingWriteStream`: one long, overwritten by every write. */
  class CondensingWriteStream {
    var condensedValue: int64

    constructor ()
      ensures condensedValue == 0
    {
      condensedValue := 0;
    }

    method WriteByte(v: int8)
      modifies this
      ensures condensedValue == ByteStep(old(condensedValue), v)
      ensures 0 <= condensedValue < TWO_8
    {
      condensedValue := ByteStep(condensedValue, v);
    }

    method WriteChar(v: char16)
      modifies this
      ensures condensedValue == LongStep(old(condensedValue), v as int64)
    {
      condensedValue := LongStep(condensedValue, v as int64);
    }

    method WriteShort(v: int16)
      modifies this
      ensures condensedValue == ShortStep(old(condensedValue), v)
      ensures 0 <= condensedValue < TWO_16
    {
      condensedValue := ShortStep(condensedValue, v);
    }

    method WriteInt(v: int32)
      modifies this
      ensures condensedValue == IntStep(old(condensedValue), v)
      ensures 0 <= condensedValue < TWO_32
    {
      condensedValue := IntStep(condensedValue, v);
    }

    method WriteLong(v: int64)
      modifies this
      ensures condensedValue == LongStep(old(condensedValue), v)
    {
      condensedValue := LongStep(condensedValue, v);
    }

    /** `getCondensedValue`: reads without changing anything. */
    method GetCondensedValue() returns (r: int64)
      ensures r == condensedValue
    {
      r := condensedValue;
    }
  }

  /** The condensed value of a run of bytes: a fold of `ByteStep` from 0. */
  function CondenseBytes(bs: seq<int8>): (r: int64)
    ensures bs != [] ==> 0 <= r < TWO_8
    ensures bs == [] ==> r == 0
  {
    if bs == [] then 0 else ByteStep(CondenseBytes(bs[..|bs| - 1]), bs[|bs| - 1])
  }

  /** A fresh stream fed bytes one by one holds their fold. */
  method CondenseAll(bs: seq<int8>) returns (r: int64)
    ensures r == CondenseBytes(bs)
  {
    var s := new CondensingWriteStream();
    for i := 0 to |bs|
      invariant s.condensedValue == CondenseBytes(bs[..i])
    {
      CondenseBytesStep(bs, i);
      s.WriteByte(bs[i]);
    }
    CondenseBytesWhole(bs);
    r := s.GetCondensedValue();
  }

  lemma CondenseBytesWhole(bs: seq<int8>)
    ensures CondenseBytes(bs[..|bs|]) == CondenseBytes(bs)
  {
    assert bs[..|bs|] == bs;
  }

  lemma CondenseBytesStep(bs: seq<int8>, i: nat)
    requires i < |bs|
    ensures CondenseBytes(bs[..i + 1]) == ByteStep(CondenseBytes(bs[..i]), bs[i])
  {
    assert bs[..i + 1][..i] == bs[..i];
  }

  /** Only the last byte and the fold before it modulo 256 decide the result. */
  lemma {:induction false} CondenseBytesLast(front: seq<int8>, other: seq<int8>, b: int8)
    requires CondenseBytes(front) % TWO_8 == CondenseBytes(other) % TWO_8
    ensures CondenseBytes(front + [b]) == CondenseBytes(other + [b])
  {
    assert (front + [b])[..|front + [b]| - 1] == front;
    assert (other + [b])[..|other + [b]| - 1] == other;
    ByteStepKeepsLowByte(CondenseBytes(front), CondenseBytes(other), b);
  }
}
