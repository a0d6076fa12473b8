// The legacy multi-hash tier: `AbstractMultiHash`'s array copies and its
// single-value array protocol, the double-hashing fills of `IntMultiHasher`
// and `IntegerMultiHash`, and `AdaptedMultiHash`'s element-wise adaptation.

module MultiHashes {
  import opened JavaMath
  import opened Results
  import opened DoubleHashing

  // ---------------------------------------------------------------------------
  // Element conversions between the array types

  /** `longs[i] = ints[i]`: every int sign-extended. */
  function Widened(s: seq<int32>): seq<int64>
  {
    seq(|s|, i requires 0 <= i < |s| => s[i] as int64)
  }

  /** `ints[i] = (int) longs[i]`: every long truncated to its low 32 bits. */
  function Narrowed(s: seq<int64>): seq<int32>
  {
    seq(|s|, i requires 0 <= i < |s| => Wrap32(s[i]))
  }

  /** `BigInteger.valueOf(ints[i])`: every int exactly. */
  function Exact(s: seq<int32>): seq<int>
  {
    seq(|s|, i requires 0 <= i < |s| => s[i] as int)
  }

  /** `bigInts[i].intValue()`: every big integer truncated to 32 bits. */
  function BigsAsInts(s: seq<int>): seq<int32>
  {
    seq(|s|, i requires 0 <= i < |s| => Wrap32(s[i]))
  }

  /** `bigInts[i].longValue()`: every big integer truncated to 64 bits. */
  function BigsAsLongs(s: seq<int>): seq<int64>
  {
    seq(|s|, i requires 0 <= i < |s| => Wrap64(s[i]))
  }

  /** Truncating sign-extended ints gives them back. */
  lemma NarrowedWidened(s: seq<int32>)
    ensures Narrowed(Widened(s)) == s
  {
    forall i | 0 <= i < |s|
      ensures Narrowed(Widened(s))[i] == s[i]
    {
      Wrap32Id(s[i]);
    }
  }

  /** Truncating exact big integers gives the ints back. */
  lemma BigsAsIntsExact(s: seq<int32>)
    ensures BigsAsInts(Exact(s)) == s
  {
    forall i | 0 <= i < |s|
      ensures BigsAsInts(Exact(s))[i] == s[i]
    {
      Wrap32Id(s[i]);
    }
  }

  /** Truncating big integers to ints is truncating them to longs and then to ints. */
  lemma BigsAsIntsThroughLongs(s: seq<int>)
    ensures BigsAsInts(s) == Narrowed(BigsAsLongs(s))
  {
    forall i | 0 <= i < |s|
      ensures BigsAsInts(s)[i] == Narrowed(BigsAsLongs(s))[i]
    {
      Wrap32OfWrap64(s[i]);
    }
  }

  // ---------------------------------------------------------------------------
  // `AbstractMultiHash.copy`: the target is overwritten from the source's
  // prefix of the same length, and returned

  method CopyIntsToLongs(ints: array<int32>, longs: array<int64>) returns (r: array<int64>)
    requires longs.Length <= ints.Length
    modifies longs
    ensures r == longs && longs[..] == Widened(ints[..longs.Length])
  {
    for i := 0 to longs.Length
      invariant longs[..i] == Widened(ints[..i])
    {
      longs[i] := ints[i] as int64;
    }
    r := longs;
  }

  method CopyLongsToInts(longs: array<int64>, ints: array<int32>) returns (r: array<int32>)
    requires ints.Length <= longs.Length
    modifies ints
    ensures r == ints && ints[..] == Narrowed(longs[..ints.Length])
  {
    for i := 0 to ints.Length
      invariant ints[..i] == Narrowed(longs[..i])
    {
      ints[i] := Wrap32(longs[i]);
    }
    r := ints;
  }

  method CopyIntsToBigs(ints: array<int32>, bigInts: array<int>) returns (r: array<int>)
    requires bigInts.Length <= ints.Length
    modifies bigInts
    ensures r == bigInts && bigInts[..] == Exact(ints[..bigInts.Length])
  {
    for i := 0 to bigInts.Length
      invariant bigInts[..i] == Exact(ints[..i])
    {
      bigInts[i] := ints[i] as int;
    }
    r := bigInts;
  }

  method CopyBigsToInts(bigInts: array<int>, ints: array<int32>) returns (r: array<int32>)
    requires ints.Length <= bigInts.Length
    modifies ints
    ensures r == ints && ints[..] == BigsAsInts(bigInts[..ints.Length])
  {
    for i := 0 to ints.Length
      invariant ints[..i] == BigsAsInts(bigInts[..i])
    {
      ints[i] := Wrap32(bigInts[i]);
    }
    r := ints;
  }

  method CopyBigsToLongs(bigInts: array<int>, longs: array<int64>) returns (r: array<int64>)
    requires longs.Length <= bigInts.Length
    modifies longs
    ensures r == longs && longs[..] == BigsAsLongs(bigInts[..longs.Length])
  {
    for i := 0 to longs.Length
      invariant longs[..i] == BigsAsLongs(bigInts[..i])
    {
      longs[i] := Wrap64(bigInts[i]);
    }
    r := longs;
  }

  // ---------------------------------------------------------------------------
  // `AbstractMultiHash`'s single-value protocol: one hash value per call

  /** `getMaxMultiplicity` of a single-valued hash. */
  const MAX_MULTIPLICITY: int32 := 1

  /**
   * The array overloads of `hashAsInts`, `hashAsLongs` and `hashAsBigInts`,
   * given the single hash value v: only an array of length one is accepted,
   * and its one element becomes v.
   */
  method HashInto<T>(v: T, target: array<T>) returns (r: Result<array<T>>)
    modifies target
    ensures target.Length != 1 ==> r == Err(IllegalArgument) && target[..] == old(target[..])
    ensures target.Length == 1 ==> r == Ok(target) && target[..] == [v]
  {
    if target.Length != 1 {
      return Err(IllegalArgument);
    }
    target[0] := v;
    r := Ok(target);
  }

  /**
   * The multiplicity overloads: a negative multiplicity is rejected, zero
   * gives an empty array, and any other is handed to the array overload on
   * a new array of that length, which accepts only a length of one.
   */
  method HashOfMultiplicity<T(0)>(v: T, multiplicity: int32) returns (r: Result<array<T>>)
    ensures multiplicity < 0 ==> r == Err(IllegalArgument)
    ensures multiplicity == 0 ==> r.Ok? && r.value.Length == 0
    ensures multiplicity == 1 ==> r.Ok? && fresh(r.value) && r.value[..] == [v]
    ensures multiplicity > 1 ==> r == Err(IllegalArgument)
  {
    if multiplicity < 0 {
      return Err(IllegalArgument);
    }
    if multiplicity == 0 {
      var empty := new T[0];
      return Ok(empty);
    }
    var target := new T[multiplicity];
    r := HashInto(v, target);
  }

  // ---------------------------------------------------------------------------
  // Double hashing into an array: `IntMultiHasher` and `IntegerMultiHash`

  /**
   * `1 + Math.abs(hashCode % size)`. The remainder is smaller than the size
   * in magnitude, so for a positive size the probe lies in [1, size].
   */
  function MultiProbe(hashCode: int32, size: int32): (r: int32)
    requires size != 0
    ensures size > 0 ==> 1 <= r <= size
  {
    var rem: int32 := JavaRem(hashCode, size);
    WrapIncrement32(Abs32(rem));
    Wrap32(1 + Abs32(rem))
  }

  /**
   * The element as written, `Math.abs(h ^ i * probe) % size`: when the xor
   * is `Integer.MIN_VALUE`, `Math.abs` leaves it negative, and so is its
   * remainder unless the size divides 2^31.
   */
  function MultiElementAsWritten(h: bv32, i: int32, probe: int32, size: int32): (r: int32)
    requires size != 0
    ensures IntsElement(h, i, probe) != INT_MIN ==> 0 <= r < (if size > 0 then size as int else -(size as int))
  {
    JavaRem(Abs32(IntsElement(h, i, probe)), size)
  }

  /**
   * The element with the remainder taken before the absolute value,
   * `Math.abs((h ^ i * probe) % size)`, as the probe is computed: always in
   * [0, |size|).
   */
  function MultiElement(h: bv32, i: int32, probe: int32, size: int32): (r: int32)
    requires size != 0
    ensures 0 <= r < (if size > 0 then size as int else -(size as int))
  {
    var rem: int32 := JavaRem(IntsElement(h, i, probe), size);
    Abs32(rem)
  }

  /** Away from `Integer.MIN_VALUE`, `Math.abs` and Java's `%` commute. */
  lemma AbsRemCommute(x: int32, size: int32)
    requires size != 0 && x != INT_MIN
    ensures JavaRem(Abs32(x), size) == Abs32(JavaRem(x, size))
  {
    var m := if size > 0 then size as int else -(size as int);
    var n := if x >= 0 then x as int else -(x as int);
    assert Abs32(x) == n;
    assert JavaRem(n, size) == n % m;
    assert JavaRem(x, size) == (if x >= 0 then n % m else -(n % m));
  }

  /** Where the as-written element is in range, the corrected one agrees with it. */
  lemma MultiElementAgrees(h: bv32, i: int32, probe: int32, size: int32)
    requires size != 0 && IntsElement(h, i, probe) != INT_MIN
    ensures MultiElement(h, i, probe, size) == MultiElementAsWritten(h, i, probe, size)
  {
    AbsRemCommute(IntsElement(h, i, probe), size);
  }

  /**
   * The hash code 723178719, whose bits are 0x2b1ad4df, spreads to
   * `Integer.MIN_VALUE`, so with a range of size 3 the first element the
   * source writes is -2, outside [0, 3).
   */
  lemma MultiElementHole()
    ensures FromBv32(0x2b1a_d4df) == 723178719
    ensures Spread32(0x2b1a_d4df) == 0x8000_0000
    ensures MultiElementAsWritten(Spread32(0x2b1a_d4df), 0, MultiProbe(723178719, 3), 3) == -2
  {
    var h := Spread32(0x2b1a_d4df);
    assert h == 0x8000_0000 by {
      var x: bv32 := 0x2b1a_d4df;
      assert x + ((x << 15) ^ 0xffff_cd7d) == 0xc0ab_225c;
      assert 0xc0ab_225c ^ (0xc0ab_225c as bv32 >> 10) == 0xc09b_0894;
      assert 0xc09b_0894 + (0xc09b_0894 as bv32 << 3) == 0xc573_4d34;
      assert 0xc573_4d34 ^ (0xc573_4d34 as bv32 >> 6) == 0xc666_8000;
      assert 0xc666_8000 + ((0xc666_8000 as bv32 << 2) + (0xc666_8000 as bv32 << 14)) == 0x8000_8000;
      assert 0x8000_8000 ^ (0x8000_8000 as bv32 >> 16) == 0x8000_0000;
    }
    IntsElementAtZero(h, MultiProbe(723178719, 3));
    assert FromBv32(h) == INT_MIN;
    assert JavaRem(INT_MIN, 3) == -2;
  }

  /**
   * The values the fill writes, as written: element i of the double-hashing
   * sequence seeded with hashCode, reduced by `Math.abs(h ^ i * probe) % size`.
   */
  function MultiElements(hashCode: int32, size: int32, n: nat): (r: seq<int32>)
    requires size != 0 && n <= INT_MAX
    ensures |r| == n
  {
    var h := Spread32(ToBv32(hashCode));
    var probe := MultiProbe(hashCode, size);
    seq(n, i requires 0 <= i < n => MultiElementAsWritten(h, i as int32, probe, size))
  }

  /** The same sequence with the corrected element, `Math.abs((h ^ i * probe) % size)`. */
  function MultiElementsIntended(hashCode: int32, size: int32, n: nat): (r: seq<int32>)
    requires size != 0 && n <= INT_MAX
    ensures |r| == n
  {
    var h := Spread32(ToBv32(hashCode));
    var probe := MultiProbe(hashCode, size);
    seq(n, i requires 0 <= i < n => MultiElement(h, i as int32, probe, size))
  }

  /** Every value of the corrected sequence lies in [0, size) for a positive size. */
  lemma MultiElementsInRange(hashCode: int32, size: int32, n: nat, k: nat)
    requires 0 < size && n <= INT_MAX && k < n
    ensures 0 <= MultiElementsIntended(hashCode, size, n)[k] < size
  {
  }

  /**
   * A value the source writes differs from the corrected one only where the
   * xor is `Integer.MIN_VALUE`; elsewhere both agree and lie in [0, size).
   */
  lemma MultiElementsAgree(hashCode: int32, size: int32, n: nat, k: nat)
    requires 0 < size && n <= INT_MAX && k < n
    requires IntsElement(Spread32(ToBv32(hashCode)), k as int32, MultiProbe(hashCode, size)) != INT_MIN
    ensures MultiElements(hashCode, size, n)[k] == MultiElementsIntended(hashCode, size, n)[k]
    ensures 0 <= MultiElements(hashCode, size, n)[k] < size
  {
    MultiElementAgrees(Spread32(ToBv32(hashCode)), k as int32, MultiProbe(hashCode, size), size);
  }

  /**
   * `hashAsInts(value, array)` given `hashCode`, the int hash of the value:
   * the probe and the spread seed, then every slot of the caller's array
   * overwritten with the elements as written and the same array returned
   * (an element can be negative, `MultiElementHole`). A zero size fails on
   * the probe's `%` before anything is written.
   */
  method FillMultiHash(hashCode: int32, size: int32, target: array<int32>) returns (r: Result<array<int32>>)
    requires target.Length <= INT_MAX
    modifies target
    ensures size == 0 ==> r == Err(Arithmetic) && target[..] == old(target[..])
    ensures size != 0 ==> r == Ok(target) && target[..] == MultiElements(hashCode, size, target.Length)
  {
    if size == 0 {
      return Err(Arithmetic);
    }
    var probe := MultiProbe(hashCode, size);
    var h := Spread32(ToBv32(hashCode));
    for i := 0 to target.Length
      invariant target[..i] == MultiElements(hashCode, size, target.Length)[..i]
    {
      target[i] := MultiElementAsWritten(h, i as int32, probe, size);
    }
    r := Ok(target);
  }

  /**
   * `IntMultiHasher.hashAsLongs`/`hashAsBigInts` and the same methods of
   * `IntegerMultiHash`: the ints for an array of the same length, copied
   * into the caller's array sign-extended.
   */
  method FillMultiHashLongs(hashCode: int32, size: int32, longs: array<int64>) returns (r: Result<array<int64>>)
    requires longs.Length <= INT_MAX
    modifies longs
    ensures size == 0 ==> r == Err(Arithmetic) && longs[..] == old(longs[..])
    ensures size != 0 ==> r == Ok(longs) && longs[..] == Widened(MultiElements(hashCode, size, longs.Length))
  {
    var ints := new int32[longs.Length];
    var filled := FillMultiHash(hashCode, size, ints);
    if filled.Err? {
      return Err(filled.error);
    }
    var copied := CopyIntsToLongs(ints, longs);
    assert ints[..longs.Length] == ints[..];
    r := Ok(copied);
  }

  method FillMultiHashBigs(hashCode: int32, size: int32, bigInts: array<int>) returns (r: Result<array<int>>)
    requires bigInts.Length <= INT_MAX
    modifies bigInts
    ensures size == 0 ==> r == Err(Arithmetic) && bigInts[..] == old(bigInts[..])
    ensures size != 0 ==> r == Ok(bigInts) && bigInts[..] == Exact(MultiElements(hashCode, size, bigInts.Length))
  {
    var ints := new int32[bigInts.Length];
    var filled := FillMultiHash(hashCode, size, ints);
    if filled.Err? {
      return Err(filled.error);
    }
    var copied := CopyIntsToBigs(ints, bigInts);
    assert ints[..bigInts.Length] == ints[..];
    r := Ok(copied);
  }

  /**
   * `IntegerMultiHash`'s inherited `hashAsInts(value, multiplicity)`: a
   * negative multiplicity is rejected, zero gives an empty array, and
   * otherwise a new array of that length is filled.
   */
  method MultiHashOfMultiplicity(hashCode: int32, size: int32, multiplicity: int32) returns (r: Result<array<int32>>)
    ensures multiplicity < 0 ==> r == Err(IllegalArgument)
    ensures multiplicity == 0 ==> r.Ok? && r.value.Length == 0
    ensures multiplicity > 0 && size == 0 ==> r == Err(Arithmetic)
    ensures multiplicity > 0 && size != 0 ==>
      r.Ok? && fresh(r.value) && r.value[..] == MultiElements(hashCode, size, multiplicity as nat)
  {
    if multiplicity < 0 {
      return Err(IllegalArgument);
    }
    if multiplicity == 0 {
      var empty := new int32[0];
      return Ok(empty);
    }
    var target := new int32[multiplicity];
    r := FillMultiHash(hashCode, size, target);
  }

  // ---------------------------------------------------------------------------
  // `IntegerMultiHash`: construction, identity and hash code

  /**
   * The hash an `IntegerMultiHash` wraps, as far as its checks and identity
   * observe it: whether its range is the full int range, and its own
   * identity and `hashCode`.
   */
  datatype WrappedHash = WrappedHash(fullIntRange: bool, identity: int, hashCode: int32)

  /** An `IntegerMultiHash`: the wrapped hash and the int size of the range [0, max]. */
  datatype IntegerMultiHash = IntegerMultiHash(hash: WrappedHash, size: int32)

  /**
   * The constructor: a null hash, a hash whose range is not the full int
   * range and a negative max are rejected. The size is that of the range
   * [0, max], `max + 1`, read with `intValue()`: for `Integer.MAX_VALUE` it
   * wraps to `Integer.MIN_VALUE`.
   */
  function NewIntegerMultiHash(hash: Option<WrappedHash>, max: int32): (r: Result<IntegerMultiHash>)
    ensures r.Ok? <==> hash.Some? && hash.value.fullIntRange && max >= 0
    ensures r.Err? ==> r.error == IllegalArgument
    ensures r.Ok? ==> r.value.hash == hash.value && r.value.size != 0
    ensures r.Ok? && max < INT_MAX ==> r.value.size == max + 1
    ensures r.Ok? && max == INT_MAX ==> r.value.size == INT_MIN
  {
    if hash.None? || !hash.value.fullIntRange || max < 0 then Err(IllegalArgument)
    else
      WrapIncrement32(max);
      Ok(IntegerMultiHash(hash.value, Wrap32(max as int + 1)))
  }

  /** `equals`: the same size and equal wrapped hashes. */
  function MultiHashEquals(a: IntegerMultiHash, b: IntegerMultiHash): (r: bool)
  {
    a.size == b.size && a.hash.identity == b.hash.identity
  }

  /** `hashCode`: the wrapped hash's hash code xor the size. */
  function MultiHashCode(m: IntegerMultiHash): int32
  {
    FromBv32(ToBv32(m.hash.hashCode) ^ ToBv32(m.size))
  }

  /**
   * Equal multi-hashes have equal hash codes, given that the wrapped
   * hashes' own `equals` and `hashCode` agree.
   */
  lemma EqualMultiHashesHashAlike(a: IntegerMultiHash, b: IntegerMultiHash)
    requires a.hash.identity == b.hash.identity ==> a.hash.hashCode == b.hash.hashCode
    requires MultiHashEquals(a, b)
    ensures MultiHashCode(a) == MultiHashCode(b)
  {
  }

  // ---------------------------------------------------------------------------
  // `AdaptedMultiHash`: its constructor's null check is `Results.NonNull`

  /**
   * The private array `adapt`: every element replaced in place by its
   * adaptation, and the same array returned.
   */
  method AdaptAll<T>(target: array<T>, adapt: T -> T) returns (r: array<T>)
    modifies target
    ensures r == target
    ensures forall i :: 0 <= i < target.Length ==> target[i] == adapt(old(target[i]))
  {
    for i := 0 to target.Length
      invariant forall k :: 0 <= k < i ==> target[k] == adapt(old(target[k]))
      invariant forall k :: i <= k < target.Length ==> target[k] == old(target[k])
    {
      target[i] := adapt(target[i]);
    }
    r := target;
  }

  /** The base class's `adapt` is the identity, so adapting every element changes nothing. */
  method AdaptAllIdentity<T>(target: array<T>) returns (r: array<T>)
    modifies target
    ensures r == target && target[..] == old(target[..])
  {
    r := AdaptAll(target, (x: T) => x);
  }
}
