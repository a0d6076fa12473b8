// Hash results: the single-value codes and values, whose views are
// conversions of one stored number, and the cursor classes, whose views each
// consume the next element of an array.

module HashCodes {
  import opened JavaMath
  import opened Results
  import opened HashSizes
  import opened Codecs

  // ---------------------------------------------------------------------------
  // The protocol shared by HashCode and HashValue

  /**
   * What `equals` is handed, as far as the comparison can observe it: this
   * very object, an object outside the interface, an instance of the same
   * class holding `exact`, or another implementation whose `bigValue()` is `big`.
   */
  datatype Obj = This | NotOfInterface | OfClass(exact: int) | OfInterface(big: int)

  /** The `equals` of AbstractHashCode and AbstractHashValue: the big views compared. */
  function ViewEquals(thisBig: int, obj: Obj): (r: bool)
    ensures obj.OfInterface? ==> (r <==> thisBig == obj.big)
    ensures obj.OfClass? ==> (r <==> thisBig == obj.exact)
    ensures obj.NotOfInterface? ==> !r
  {
    match obj
    case This => true
    case NotOfInterface => false
    case OfClass(x) => thisBig == x
    case OfInterface(b) => thisBig == b
  }

  /** The null checks of `fromLongs(BigInteger...)`: the array and then every element. */
  method CheckBigValues(bigValues: Option<seq<Option<int>>>) returns (r: Result<seq<int>>)
    ensures r.Ok? <==> bigValues.Some? && forall i :: 0 <= i < |bigValues.value| ==> bigValues.value[i].Some?
    ensures r.Ok? ==>
      |r.value| == |bigValues.value| && forall i :: 0 <= i < |r.value| ==> bigValues.value[i] == Some(r.value[i])
    ensures r.Err? ==> r.error == IllegalArgument
  {
    if bigValues.None? {
      return Err(IllegalArgument);
    }
    var values := bigValues.value;
    var checked: seq<int> := [];
    var i := 0;
    while i < |values|
      invariant 0 <= i <= |values| && |checked| == i
      invariant forall j :: 0 <= j < i ==> values[j] == Some(checked[j])
    {
      if values[i].None? {
        return Err(IllegalArgument);
      }
      checked := checked + [values[i].value];
      i := i + 1;
    }
    return Ok(checked);
  }

  // ---------------------------------------------------------------------------
  // Single-value hash codes: no cursor, every read repeats the same value

  /** `LongHashCode`: one long, and a size with long capacity. */
  datatype LongHashCode = LongHashCode(size: HashSize, value: int64)
  {
    predicate HasNext() { true }

    /** The low 32 bits of the long. */
    function IntValue(): (r: int32)
      ensures Unsigned32(r) == Unsigned64(value) % TWO_32
    {
      Pow2Constants();
      ModModMultiple(value, TWO_32, TWO_32);
      Wrap32(value)
    }

    function LongValue(): int64 { value }

    function BigValue(): int { value }

    /** `longToBytes(value)`: eight bytes that decode to the value. */
    function BytesValue(): (r: seq<int8>)
      ensures |r| == 8 && Wrap64(BigFromBytes(r)) == value
    {
      LongRoundTrip(value);
      LongToBytes(value)
    }

    /** The same class compares the longs; anything else goes to the big views. */
    function Equals(obj: Obj): bool
    {
      match obj
      case This => true
      case OfClass(x) => value == x
      case _ => ViewEquals(BigValue(), obj)
    }
  }

  /** `HashCode.fromLong` and the one-argument constructor: the long-wide size. */
  function FromLong(value: int64): (r: LongHashCode)
    ensures r.size == LONG_SIZE && r.size.longCapacity && r.value == value
  {
    LongSizeFields();
    LongHashCode(LONG_SIZE, value)
  }

  /** The sized constructor rejects null and any size beyond long capacity. */
  function NewLongHashCode(size: Option<HashSize>, value: int64): (r: Result<LongHashCode>)
    ensures r.Ok? <==> size.Some? && size.value.longCapacity
    ensures r.Ok? ==> r.value == LongHashCode(size.value, value)
    ensures r.Err? ==> r.error == IllegalArgument
  {
    var s := NonNull(size);
    if s.Err? then Err(s.error)
    else if !s.value.longCapacity then Err(IllegalArgument)
    else Ok(LongHashCode(s.value, value))
  }

  /** The override of `equals` agrees with the big-view comparison it refines. */
  lemma LongHashCodeEquals(c: LongHashCode, obj: Obj)
    ensures c.Equals(obj) == ViewEquals(c.BigValue(), obj)
  {
  }

  /** `BigHashCode`: one big integer; its int and long views are the interface's truncations. */
  datatype BigHashCode = BigHashCode(size: HashSize, value: int)
  {
    predicate HasNext() { true }

    function BigValue(): int { value }

    /** `bigValue().longValue()`: the low 64 bits. */
    function LongValue(): (r: int64)
      ensures r % TWO_64 == value % TWO_64
    {
      Wrap64(value)
    }

    /** `bigValue().intValue()`: the low 32 bits. */
    function IntValue(): (r: int32)
      ensures r % TWO_32 == value % TWO_32
    {
      Wrap32(value)
    }

    /** `bigToBytes(size.getBytes(), value)`; the byte count is a parameter here. */
    function BytesValue(sizeBytes: int32): (r: Result<seq<int8>>)
      ensures r.Ok? <==> sizeBytes >= 0
      ensures r.Ok? ==> |r.value| == sizeBytes
      ensures r.Ok? && value >= 0 ==> BigFromBytes(r.value) == value % Pow2(8 * sizeBytes)
    {
      var r := BigToBytes(sizeBytes, value);
      if r.Ok? && value >= 0 then
        BigRoundTrip(sizeBytes, value);
        r
      else r
    }

    function Equals(obj: Obj): bool
    {
      ViewEquals(value, obj)
    }
  }

  /** The constructor checks the size (in the superclass) and then the value for null. */
  function NewBigHashCode(size: Option<HashSize>, value: Option<int>): (r: Result<BigHashCode>)
    ensures r.Ok? <==> size.Some? && value.Some?
    ensures r.Ok? ==> r.value == BigHashCode(size.value, value.value)
    ensures r.Err? ==> r.error == IllegalArgument
  {
    var s := NonNull(size);
    if s.Err? then Err(s.error)
    else if value.None? then Err(IllegalArgument)
    else Ok(BigHashCode(s.value, value.value))
  }

  /** The int view is the low half of the long view. */
  lemma BigHashCodeViews(c: BigHashCode)
    ensures c.IntValue() == Wrap32(c.LongValue())
  {
    Wrap32OfWrap64(c.value);
  }

  // ---------------------------------------------------------------------------
  // Single-value hash values: `hasNext` is false, reads repeat

  /** `IntHashValue`: the long and big views sign-extend the int. */
  datatype IntHashValue = IntHashValue(value: int32)
  {
    predicate HasNext() { false }

    function IntValue(): int32 { value }

    function LongValue(): int64 { value }

    function BigValue(): int { value }

    /** `AbstractHashValue.hashCode`: the int view. */
    function HashCode(): int32 { IntValue() }

    function Equals(obj: Obj): bool
    {
      match obj
      case This => true
      case OfClass(x) => value == x
      case _ => ViewEquals(BigValue(), obj)
    }
  }

  lemma IntHashValueEquals(v: IntHashValue, obj: Obj)
    ensures v.Equals(obj) == ViewEquals(v.BigValue(), obj)
    ensures v.LongValue() == v.BigValue() == v.IntValue()
  {
  }

  /** `LongHashValue`: the int view is checked, and throws unless the long fits. */
  datatype LongHashValue = LongHashValue(value: int64)
  {
    predicate HasNext() { false }

    function IntValue(): (r: Result<int32>)
      ensures r.Ok? <==> INT_MIN <= value <= INT_MAX
      ensures r.Ok? ==> r.value == value
      ensures r.Err? ==> r.error == Arithmetic
    {
      var intValue := Wrap32(value);
      if intValue != value then Err(Arithmetic)
      else Ok(intValue)
    }

    function LongValue(): int64 { value }

    function BigValue(): int { value }

    /** `hashCode()` reads the checked int view, so it throws for a long beyond int range. */
    function HashCode(): (r: Result<int32>)
      ensures r.Ok? <==> INT_MIN <= value <= INT_MAX
    {
      IntValue()
    }

    function Equals(obj: Obj): bool
    {
      match obj
      case This => true
      case OfClass(x) => value == x
      case _ => ViewEquals(BigValue(), obj)
    }
  }

  lemma LongHashValueEquals(v: LongHashValue, obj: Obj)
    ensures v.Equals(obj) == ViewEquals(v.BigValue(), obj)
  {
  }

  /** A checked int view that succeeds is also the interface's truncation. */
  lemma LongHashValueIntIsTruncation(v: LongHashValue)
    requires v.IntValue().Ok?
    ensures v.IntValue().value == Wrap32(v.BigValue())
  {
  }

  /** `BigHashValue`: exact narrowing views. */
  datatype BigHashValue = BigHashValue(value: int)
  {
    predicate HasNext() { false }

    function BigValue(): int { value }

    /** `intValueExact`. */
    function IntValue(): (r: Result<int32>)
      ensures r.Ok? <==> INT_MIN <= value <= INT_MAX
      ensures r.Ok? ==> r.value == value
    {
      if INT_MIN <= value <= INT_MAX then Ok(value) else Err(Arithmetic)
    }

    /** `longValueExact`. */
    function LongValue(): (r: Result<int64>)
      ensures r.Ok? <==> LONG_MIN <= value <= LONG_MAX
      ensures r.Ok? ==> r.value == value
    {
      if LONG_MIN <= value <= LONG_MAX then Ok(value) else Err(Arithmetic)
    }

    function Equals(obj: Obj): bool
    {
      ViewEquals(value, obj)
    }
  }

  /** `HashValue.fromBig`: null is rejected. */
  function NewBigHashValue(value: Option<int>): (r: Result<BigHashValue>)
    ensures r.Ok? <==> value.Some?
    ensures r.Ok? ==> r.value.BigValue() == value.value
  {
    if value.None? then Err(IllegalArgument) else Ok(BigHashValue(value.value))
  }

  /** Where the exact views succeed they agree with the truncating defaults, and the int view implies the long one. */
  lemma BigHashValueExact(v: BigHashValue)
    ensures v.IntValue().Ok? ==> v.IntValue().value == Wrap32(v.value)
    ensures v.LongValue().Ok? ==> v.LongValue().value == Wrap64(v.value)
    ensures v.IntValue().Ok? ==> v.LongValue().Ok?
  {
    if v.IntValue().Ok? {
      Wrap32Id(v.value);
    }
    if v.LongValue().Ok? {
      Wrap64Id(v.value);
    }
  }

  // ---------------------------------------------------------------------------
  // Cursors over arrays

  /** `IntsHashCode`: the views read `intValues[index++]`; the array itself is never written. */
  class IntsHashCode {
    const size: HashSize
    const intValues: array<int32>
    var index: int

    ghost predicate Valid()
      reads this
    {
      0 <= index <= intValues.Length
    }

    /** The unsized constructor: a cursor at the start, with the int-wide size. */
    constructor (intValues: array<int32>)
      ensures size == INT_SIZE && this.intValues == intValues && index == 0
      ensures Valid()
    {
      size := INT_SIZE;
      this.intValues := intValues;
      index := 0;
    }

    constructor WithSize(size: HashSize, intValues: array<int32>)
      ensures this.size == size && this.intValues == intValues && index == 0
      ensures Valid()
    {
      this.size := size;
      this.intValues := intValues;
      index := 0;
    }

    function HasNext(): bool
      reads this
    {
      index < intValues.Length
    }

    /** `checkIndex` and then `intValues[index++]`: one element, or NoSuchElementException at the end. */
    method Next() returns (r: Result<int32>)
      requires Valid()
      modifies this
      ensures Valid()
      ensures old(HasNext()) ==> r == Ok(intValues[old(index)]) && index == old(index) + 1
      ensures !old(HasNext()) ==> r == Err(NoSuchElement) && index == old(index)
    {
      if index == intValues.Length {
        return Err(NoSuchElement);
      }
      r := Ok(intValues[index]);
      index := index + 1;
    }

    method IntValue() returns (r: Result<int32>)
      requires Valid()
      modifies this
      ensures Valid()
      ensures old(HasNext()) ==> r == Ok(intValues[old(index)]) && index == old(index) + 1
      ensures !old(HasNext()) ==> r == Err(NoSuchElement) && index == old(index)
    {
      r := Next();
    }

    /** The long view sign-extends the element. */
    method LongValue() returns (r: Result<int64>)
      requires Valid()
      modifies this
      ensures Valid()
      ensures old(HasNext()) ==> r == Ok(intValues[old(index)] as int64) && index == old(index) + 1
      ensures !old(HasNext()) ==> r == Err(NoSuchElement) && index == old(index)
    {
      var v := Next();
      r := if v.Ok? then Ok(v.value as int64) else Err(v.error);
    }

    /** The big view is `BigInteger.valueOf` of the element. */
    method BigValue() returns (r: Result<int>)
      requires Valid()
      modifies this
      ensures Valid()
      ensures old(HasNext()) ==> r == Ok(intValues[old(index)] as int) && index == old(index) + 1
      ensures !old(HasNext()) ==> r == Err(NoSuchElement) && index == old(index)
    {
      var v := Next();
      r := if v.Ok? then Ok(v.value as int) else Err(v.error);
    }
  }

  /** `HashCode.fromInts`: a null array is rejected. */
  method FromInts(intValues: Option<array<int32>>) returns (r: Result<IntsHashCode>)
    ensures r.Ok? <==> intValues.Some?
    ensures r.Ok? ==>
      fresh(r.value) && r.value.Valid() && r.value.index == 0 && r.value.intValues == intValues.value && r.value.size == INT_SIZE
    ensures r.Err? ==> r.error == IllegalArgument
  {
    if intValues.None? {
      return Err(IllegalArgument);
    }
    var c := new IntsHashCode(intValues.value);
    return Ok(c);
  }

  /** The sized constructor: null (in the superclass) and sizes beyond int capacity are rejected. */
  method NewSizedIntsHashCode(size: Option<HashSize>, intValues: array<int32>) returns (r: Result<IntsHashCode>)
    ensures r.Ok? <==> size.Some? && size.value.intCapacity
    ensures r.Ok? ==>
      fresh(r.value) && r.value.Valid() && r.value.index == 0 && r.value.intValues == intValues && r.value.size == size.value
    ensures r.Err? ==> r.error == IllegalArgument
  {
    var s := NonNull(size);
    if s.Err? {
      return Err(s.error);
    }
    if !s.value.intCapacity {
      return Err(IllegalArgument);
    }
    var c := new IntsHashCode.WithSize(s.value, intValues);
    return Ok(c);
  }

  /** Exactly `length` reads succeed: draining a fresh cursor yields the whole array, then the end. */
  method DrainInts(code: IntsHashCode) returns (values: seq<int32>)
    requires code.Valid() && code.index == 0
    modifies code
    ensures values == code.intValues[..]
    ensures code.Valid() && !code.HasNext()
  {
    values := [];
    while code.HasNext()
      invariant code.Valid()
      invariant values == code.intValues[..code.index]
      decreases code.intValues.Length - code.index
    {
      var v := code.IntValue();
      values := values + [v.value];
    }
    assert code.intValues[..code.index] == code.intValues[..];
  }

  /** `BigsHashCode`: a cursor over big integers; the int and long views are the truncating defaults. */
  class BigsHashCode {
    const size: HashSize
    const bigValues: array<int>
    var index: int

    ghost predicate Valid()
      reads this
    {
      0 <= index <= bigValues.Length
    }

    constructor (size: HashSize, bigValues: array<int>)
      ensures this.size == size && this.bigValues == bigValues && index == 0
      ensures Valid()
    {
      this.size := size;
      this.bigValues := bigValues;
      index := 0;
    }

    function HasNext(): bool
      reads this
    {
      index < bigValues.Length
    }

    method BigValue() returns (r: Result<int>)
      requires Valid()
      modifies this
      ensures Valid()
      ensures old(HasNext()) ==> r == Ok(bigValues[old(index)]) && index == old(index) + 1
      ensures !old(HasNext()) ==> r == Err(NoSuchElement) && index == old(index)
    {
      if index == bigValues.Length {
        return Err(NoSuchElement);
      }
      r := Ok(bigValues[index]);
      index := index + 1;
    }

    /** `bigValue().longValue()`. */
    method LongValue() returns (r: Result<int64>)
      requires Valid()
      modifies this
      ensures Valid()
      ensures old(HasNext()) ==> r == Ok(Wrap64(bigValues[old(index)])) && index == old(index) + 1
      ensures !old(HasNext()) ==> r == Err(NoSuchElement) && index == old(index)
    {
      var v := BigValue();
      r := if v.Ok? then Ok(Wrap64(v.value)) else Err(v.error);
    }

    /** `bigValue().intValue()`. */
    method IntValue() returns (r: Result<int32>)
      requires Valid()
      modifies this
      ensures Valid()
      ensures old(HasNext()) ==> r == Ok(Wrap32(bigValues[old(index)])) && index == old(index) + 1
      ensures !old(HasNext()) ==> r == Err(NoSuchElement) && index == old(index)
    {
      var v := BigValue();
      r := if v.Ok? then Ok(Wrap32(v.value)) else Err(v.error);
    }

    /** One element, encoded into `size.getBytes()` bytes (a parameter here). */
    method BytesValue(sizeBytes: int32) returns (r: Result<seq<int8>>)
      requires Valid()
      modifies this
      ensures Valid()
      ensures old(HasNext()) ==> r == BigToBytes(sizeBytes, bigValues[old(index)]) && index == old(index) + 1
      ensures !old(HasNext()) ==> r == Err(NoSuchElement) && index == old(index)
    {
      var v := BigValue();
      r := if v.Ok? then BigToBytes(sizeBytes, v.value) else Err(v.error);
    }
  }

  /** `IntsHashValue`: like `IntsHashCode`, with `next()` skipping an element. */
  class IntsHashValue {
    const intValues: array<int32>
    var index: int

    ghost predicate Valid()
      reads this
    {
      0 <= index <= intValues.Length
    }

    constructor (intValues: array<int32>)
      ensures this.intValues == intValues && index == 0 && Valid()
    {
      this.intValues := intValues;
      index := 0;
    }

    function HasNext(): bool
      reads this
    {
      index < intValues.Length
    }

    method IntValue() returns (r: Result<int32>)
      requires Valid()
      modifies this
      ensures Valid()
      ensures old(HasNext()) ==> r == Ok(intValues[old(index)]) && index == old(index) + 1
      ensures !old(HasNext()) ==> r == Err(NoSuchElement) && index == old(index)
    {
      if index == intValues.Length {
        return Err(NoSuchElement);
      }
      r := Ok(intValues[index]);
      index := index + 1;
    }

    method LongValue() returns (r: Result<int64>)
      requires Valid()
      modifies this
      ensures Valid()
      ensures old(HasNext()) ==> r == Ok(intValues[old(index)] as int64) && index == old(index) + 1
      ensures !old(HasNext()) ==> r == Err(NoSuchElement) && index == old(index)
    {
      var v := IntValue();
      r := if v.Ok? then Ok(v.value as int64) else Err(v.error);
    }

    method BigValue() returns (r: Result<int>)
      requires Valid()
      modifies this
      ensures Valid()
      ensures old(HasNext()) ==> r == Ok(intValues[old(index)] as int) && index == old(index) + 1
      ensures !old(HasNext()) ==> r == Err(NoSuchElement) && index == old(index)
    {
      var v := IntValue();
      r := if v.Ok? then Ok(v.value as int) else Err(v.error);
    }

    /** `next()`: check, skip exactly one element, and return this same object. */
    method Next() returns (r: Result<IntsHashValue>)
      requires Valid()
      modifies this
      ensures Valid()
      ensures old(HasNext()) ==> r == Ok(this) && index == old(index) + 1
      ensures !old(HasNext()) ==> r == Err(NoSuchElement) && index == old(index)
    {
      if index == intValues.Length {
        return Err(NoSuchElement);
      }
      index := index + 1;
      return Ok(this);
    }

    /** `hashCode()` is the int view, so it consumes an element. */
    method HashCode() returns (r: Result<int32>)
      requires Valid()
      modifies this
      ensures Valid()
      ensures old(HasNext()) ==> r == Ok(intValues[old(index)]) && index == old(index) + 1
      ensures !old(HasNext()) ==> r == Err(NoSuchElement) && index == old(index)
    {
      r := IntValue();
    }

    /** `equals` reads the big view (consuming an element) unless it can answer without it. */
    method Equals(obj: Obj) returns (r: Result<bool>)
      requires Valid()
      modifies this
      ensures Valid()
      ensures obj.This? ==> r == Ok(true) && index == old(index)
      ensures obj.NotOfInterface? ==> r == Ok(false) && index == old(index)
      ensures (obj.OfClass? || obj.OfInterface?) && old(HasNext()) ==>
        r == Ok(ViewEquals(intValues[old(index)], obj)) && index == old(index) + 1
      ensures (obj.OfClass? || obj.OfInterface?) && !old(HasNext()) ==>
        r == Err(NoSuchElement) && index == old(index)
    {
      if obj.This? {
        return Ok(true);
      }
      if obj.NotOfInterface? {
        return Ok(false);
      }
      var b := BigValue();
      r := if b.Ok? then Ok(ViewEquals(b.value, obj)) else Err(b.error);
    }
  }

  /**
   * The big view of a `LongsHashValue` element as the source computes it:
   * 2^64 added to the signed long, whatever its sign.
   */
  function LongsBigViewAsWritten(v: int64): int
  {
    TWO_64 + v
  }

  /** Even the long 0 gets a big view of 2^64, outside the unsigned range of a long. */
  lemma LongsBigViewOfZero()
    ensures LongsBigViewAsWritten(0) == TWO_64
    ensures LongsBigViewAsWritten(0) != Unsigned64(0)
  {
  }

  /** The evident intent: the unsigned reading of the long, which truncates back to the long. */
  function LongsBigView(v: int64): (r: int)
    ensures 0 <= r < TWO_64 && Wrap64(r) == v
    ensures v >= 0 ==> r == v
    ensures v < 0 ==> r == LongsBigViewAsWritten(v)
  {
    Unsigned64Reading(v);
    Unsigned64(v)
  }

  lemma Unsigned64Reading(v: int64)
    ensures 0 <= Unsigned64(v) < TWO_64 && Wrap64(Unsigned64(v)) == v
    ensures v >= 0 ==> Unsigned64(v) == v
    ensures v < 0 ==> Unsigned64(v) == TWO_64 + v
  {
    WrapToCongruent(Unsigned64(v), v, TWO_64);
    Wrap64Id(v);
    if v >= 0 {
      DivModUnique(v, TWO_64, 0, v);
    } else {
      DivModUnique(v, TWO_64, -1, v + TWO_64);
    }
  }

  /** `LongsHashValue`: a cursor over longs; the int view is the low half of the long view. */
  class LongsHashValue {
    const longValues: array<int64>
    var index: int

    ghost predicate Valid()
      reads this
    {
      0 <= index <= longValues.Length
    }

    constructor (longValues: array<int64>)
      ensures this.longValues == longValues && index == 0 && Valid()
    {
      this.longValues := longValues;
      index := 0;
    }

    function HasNext(): bool
      reads this
    {
      index < longValues.Length
    }

    method LongValue() returns (r: Result<int64>)
      requires Valid()
      modifies this
      ensures Valid()
      ensures old(HasNext()) ==> r == Ok(longValues[old(index)]) && index == old(index) + 1
      ensures !old(HasNext()) ==> r == Err(NoSuchElement) && index == old(index)
    {
      if index == longValues.Length {
        return Err(NoSuchElement);
      }
      r := Ok(longValues[index]);
      index := index + 1;
    }

    /** `(int) longValue()`. */
    method IntValue() returns (r: Result<int32>)
      requires Valid()
      modifies this
      ensures Valid()
      ensures old(HasNext()) ==> r == Ok(Wrap32(longValues[old(index)])) && index == old(index) + 1
      ensures !old(HasNext()) ==> r == Err(NoSuchElement) && index == old(index)
    {
      var v := LongValue();
      r := if v.Ok? then Ok(Wrap32(v.value)) else Err(v.error);
    }

    /**
     * The big view as the source computes it: 2^64 plus the next long. For a negative
     * long this is the unsigned reading; for any other it lies 2^64 above it.
     */
    method BigValue() returns (r: Result<int>)
      requires Valid()
      modifies this
      ensures Valid()
      ensures old(HasNext()) ==> r == Ok(LongsBigViewAsWritten(longValues[old(index)])) && index == old(index) + 1
      ensures old(HasNext()) && longValues[old(index)] < 0 ==> r.value == LongsBigView(longValues[old(index)])
      ensures old(HasNext()) && longValues[old(index)] >= 0 ==> r.value == LongsBigView(longValues[old(index)]) + TWO_64
      ensures !old(HasNext()) ==> r == Err(NoSuchElement) && index == old(index)
    {
      var v := LongValue();
      r := if v.Ok? then Ok(LongsBigViewAsWritten(v.value)) else Err(v.error);
    }
  }

  /** `HashValue.fromLongs(long...)`: a null array is rejected. */
  method FromLongs(longValues: Option<array<int64>>) returns (r: Result<LongsHashValue>)
    ensures r.Ok? <==> longValues.Some?
    ensures r.Ok? ==>
      fresh(r.value) && r.value.Valid() && r.value.index == 0 && r.value.longValues == longValues.value
    ensures r.Err? ==> r.error == IllegalArgument
  {
    if longValues.None? {
      return Err(IllegalArgument);
    }
    var v := new LongsHashValue(longValues.value);
    return Ok(v);
  }

  /** `HashValue.fromInts`: a null array is rejected. */
  method FromIntsValue(intValues: Option<array<int32>>) returns (r: Result<IntsHashValue>)
    ensures r.Ok? <==> intValues.Some?
    ensures r.Ok? ==>
      fresh(r.value) && r.value.Valid() && r.value.index == 0 && r.value.intValues == intValues.value
    ensures r.Err? ==> r.error == IllegalArgument
  {
    if intValues.None? {
      return Err(IllegalArgument);
    }
    var v := new IntsHashValue(intValues.value);
    return Ok(v);
  }
}
