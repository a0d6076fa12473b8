// Hashers as the resizing machinery sees them: a size, a quantity, and the
// wrappers `sized`, `distinct`, `ints` and `longs` build around a hasher; and
// the folds the sized adapters apply to the values they pass on.

module Hashers {
  import opened JavaMath
  import opened Results
  import opened HashSizes
  import opened HashCodes

  /** The adapter `sized` picks, by the capacity of the hasher being resized. */
  datatype Tier = IntTier | LongTier | BigTier

  /** `Hasher.sized`: the int adapter within int capacity, else the long one within long capacity, else the big one. */
  function TierOf(oldSize: HashSize): Tier
  {
    if oldSize.intCapacity then IntTier
    else if oldSize.longCapacity then LongTier
    else BigTier
  }

  /**
   * A hasher. `Source` is any hasher not built here, known by its size and
   * quantity; the others are the wrappers this library builds.
   */
  datatype Hasher =
    | Source(size: HashSize, quantity: int32)
    | Resized(tier: Tier, hashing: Hasher, oldSize: HashSize, newSize: HashSize, isSmaller: bool)
    | Ints(hashing: Hasher)
    | Longs(hashing: Hasher)
    | Distinct(size: HashSize, quantity: int32, choiceSize: HashSize, hashing: Hasher, longSized: bool)
  {
    function GetSize(): HashSize
    {
      match this
      case Source(size, _) => size
      case Resized(_, _, _, newSize, _) => newSize
      case Ints(_) => INT_SIZE
      case Longs(_) => LONG_SIZE
      case Distinct(size, _, _, _, _) => size
    }

    function GetQuantity(): int32
    {
      match this
      case Source(_, quantity) => quantity
      case Resized(_, hashing, _, _, _) => hashing.GetQuantity()
      case Ints(_) => INT_MAX
      case Longs(_) => INT_MAX
      case Distinct(_, quantity, _, _, _) => quantity
    }

    /** The fields as the constructors leave them. */
    predicate Valid()
    {
      match this
      case Source(size, _) => size.Valid()
      case Resized(tier, hashing, oldSize, newSize, isSmaller) =>
        hashing.Valid() && newSize.Valid() && oldSize == hashing.GetSize()
        && tier == TierOf(oldSize) && isSmaller == (newSize.bigSize < oldSize.bigSize)
      case Ints(hashing) => hashing.Valid() && hashing.GetSize() == INT_SIZE
      case Longs(hashing) => hashing.Valid() && hashing.GetSize() == LONG_SIZE
      case Distinct(size, quantity, choiceSize, hashing, longSized) =>
        size.Valid() && 1 <= quantity <= size.bigSize < TWO_31
        && choiceSize == OfBig(Binomial(size.bigSize, quantity))
        && hashing.Valid() && hashing.GetSize() == choiceSize
        && longSized == choiceSize.longSized
    }
  }

  /** A valid hasher has a valid size. */
  lemma {:induction false} ValidSize(h: Hasher)
    requires h.Valid()
    ensures h.GetSize().Valid()
  {
    match h
    case Source(_, _) =>
    case Resized(_, _, _, _, _) =>
    case Ints(_) => IntSizeFields();
    case Longs(_) => LongSizeFields();
    case Distinct(_, _, _, _, _) =>
  }

  /** The `SizedHasher` constructor: the old size is read from the wrapped hasher, and compared strictly. */
  function NewSized(hashing: Hasher, newSize: HashSize): (r: Hasher)
    requires hashing.Valid() && newSize.Valid()
    ensures r.Resized? && r.Valid()
    ensures r.GetSize() == newSize && r.GetQuantity() == hashing.GetQuantity()
    ensures r.isSmaller <==> newSize.bigSize < hashing.GetSize().bigSize
  {
    var oldSize := hashing.GetSize();
    Resized(TierOf(oldSize), hashing, oldSize, newSize, newSize.CompareTo(oldSize) < 0)
  }

  /** `Hasher.sized`: null is rejected, an equal size returns the hasher itself, any other size wraps it. */
  function Sized(h: Hasher, newSize: Option<HashSize>): (r: Result<Hasher>)
    requires h.Valid() && (newSize.Some? ==> newSize.value.Valid())
    ensures r.Ok? <==> newSize.Some?
    ensures r.Err? ==> r.error == IllegalArgument
    ensures r.Ok? && h.GetSize().Equals(newSize) ==> r.value == h
    ensures r.Ok? && !h.GetSize().Equals(newSize) ==>
      r.value.Resized? && r.value.hashing == h && r.value.tier == TierOf(h.GetSize())
  {
    if newSize.None? then Err(IllegalArgument)
    else if h.GetSize().Equals(newSize) then Ok(h)
    else Ok(NewSized(h, newSize.value))
  }

  /** Whatever `sized` returns is a valid hasher of the requested size and the same quantity. */
  lemma SizedMeetsRequest(h: Hasher, newSize: HashSize)
    requires h.Valid() && newSize.Valid()
    ensures Sized(h, Some(newSize)).Ok?
    ensures Sized(h, Some(newSize)).value.Valid()
    ensures Sized(h, Some(newSize)).value.GetSize() == newSize
    ensures Sized(h, Some(newSize)).value.GetQuantity() == h.GetQuantity()
  {
    ValidSize(h);
    EqualsMeansSameCapacity(h.GetSize(), newSize);
  }

  /** Resizing twice to the same size adds no second wrapper. */
  lemma SizedIdempotent(h: Hasher, newSize: HashSize)
    requires h.Valid() && newSize.Valid()
    ensures Sized(h, Some(newSize)).Ok?
    ensures Sized(Sized(h, Some(newSize)).value, Some(newSize)) == Sized(h, Some(newSize))
  {
    SizedMeetsRequest(h, newSize);
  }

  /** The tier bounds the old capacity: 2^32 for the int tier, 2^64 for the long tier, beyond for the big one. */
  lemma TierBounds(oldSize: HashSize)
    requires oldSize.Valid()
    ensures TierOf(oldSize) == IntTier <==> oldSize.bigSize <= TWO_32
    ensures TierOf(oldSize) == LongTier <==> TWO_32 < oldSize.bigSize <= TWO_64
    ensures TierOf(oldSize) == BigTier <==> TWO_64 < oldSize.bigSize
  {
    FlagsMeaning(oldSize);
  }

  // ---------------------------------------------------------------------------
  // Distinct, ints and longs

  /** The number of k-element subsets of an n-element set, by Pascal's rule. */
  function Binomial(n: nat, k: nat): nat
    decreases n
  {
    if k == 0 then 1
    else if n == 0 then 0
    else Binomial(n - 1, k - 1) + Binomial(n - 1, k)
  }

  lemma {:induction false} BinomialPositive(n: nat, k: nat)
    requires k <= n
    ensures Binomial(n, k) >= 1
    decreases n
  {
    if k > 0 {
      BinomialPositive(n - 1, k - 1);
    }
  }

  /** One element can be chosen in n ways. */
  lemma {:induction false} BinomialOfOne(n: nat)
    ensures Binomial(n, 1) == n
    decreases n
  {
    if n > 0 {
      BinomialOfOne(n - 1);
    }
  }

  /** `DistinctHasher.requiredHashSize`: the number of distinct choices of `multiplicity` values below `max`. */
  function RequiredHashSize(max: int32, multiplicity: int32): (r: int)
    requires 0 <= multiplicity <= max
    ensures r >= 1
    ensures multiplicity == 1 ==> r == max
  {
    BinomialPositive(max, multiplicity);
    if multiplicity == 1 then BinomialOfOne(max); Binomial(max, multiplicity)
    else Binomial(max, multiplicity)
  }

  /**
   * The `DistinctHasher` constructor, called only from `distinct`, which has
   * already checked the quantity and the size. `asInt` then cannot fail.
   */
  function NewDistinct(size: HashSize, multiplicity: int32, hasher: Hasher): (r: Hasher)
    requires size.Valid() && hasher.Valid() && 1 <= multiplicity <= size.bigSize < TWO_31
    ensures r.Valid() && r.GetSize() == size && r.GetQuantity() == multiplicity
  {
    FlagsMeaning(size);
    Wrap32Id(size.bigSize);
    var intSize := size.AsInt().value;
    var choiceCount := RequiredHashSize(intSize, multiplicity);
    var choiceSize := OfBig(choiceCount);
    SizedMeetsRequest(hasher, choiceSize);
    Distinct(size, multiplicity, choiceSize, Sized(hasher, Some(choiceSize)).value, choiceSize.longSized)
  }

  /** The int view of an int-sized capacity: the capacity itself, except 2^31, which reads as `Integer.MIN_VALUE`. */
  lemma IntViewOfCapacity(c: int)
    requires 0 < c <= TWO_31
    ensures c < TWO_31 ==> Wrap32(c) == c
    ensures c == TWO_31 ==> Wrap32(c) == INT_MIN
  {
    if c < TWO_31 {
      Wrap32Id(c);
    } else {
      DivModUnique(c, TWO_32, 0, c);
    }
  }

  /**
   * `Hasher.distinct`: a positive quantity, a non-null int-sized size, and a
   * quantity no larger than `size.asBig().intValue()`. It accepts exactly a
   * quantity in [1, capacity] with a capacity below 2^31: at 2^31 the int view
   * of the capacity is negative, so every quantity exceeds it.
   */
  function DistinctOf(h: Hasher, quantity: int32, size: Option<HashSize>): (r: Result<Hasher>)
    requires h.Valid() && (size.Some? ==> size.value.Valid())
    ensures r.Ok? <==> size.Some? && 1 <= quantity <= size.value.bigSize < TWO_31
    ensures r.Err? ==> r.error == IllegalArgument
    ensures r.Ok? ==> r.value.Valid() && r.value.GetSize() == size.value && r.value.GetQuantity() == quantity
  {
    if quantity < 1 then Err(IllegalArgument)
    else if size.None? then Err(IllegalArgument)
    else
      var s := size.value;
      FlagsMeaning(s);
      if !s.intSized then Err(IllegalArgument)
      else
        IntViewOfCapacity(s.bigSize);
        if quantity > Wrap32(s.bigSize) then Err(IllegalArgument)
        else Ok(NewDistinct(s, quantity, h))
  }

  /** The `IntsHasher` constructor wraps the hasher resized to the int-wide size. */
  function IntsOf(h: Hasher): (r: Hasher)
    requires h.Valid()
    ensures r.Valid() && r.GetSize() == INT_SIZE && r.GetQuantity() == INT_MAX
  {
    IntSizeFields();
    SizedMeetsRequest(h, INT_SIZE);
    Ints(Sized(h, Some(INT_SIZE)).value)
  }

  /** The `LongsHasher` constructor wraps the hasher resized to the long-wide size. */
  function LongsOf(h: Hasher): (r: Hasher)
    requires h.Valid()
    ensures r.Valid() && r.GetSize() == LONG_SIZE && r.GetQuantity() == INT_MAX
  {
    LongSizeFields();
    SizedMeetsRequest(h, LONG_SIZE);
    Longs(Sized(h, Some(LONG_SIZE)).value)
  }

  /** A hasher already of the int-wide size is wrapped by `ints` without an adapter in between. */
  lemma IntsOfIntSized(h: Hasher)
    requires h.Valid() && h.GetSize() == INT_SIZE
    ensures IntsOf(h) == Ints(h)
  {
    IntSizeFields();
  }

  // ---------------------------------------------------------------------------
  // The folds of the sized adapters

  /** `isSmaller ? newSize.mapInt(h) : h`, with `mapInt` as the source computes it. */
  function FoldInt(newSize: HashSize, isSmaller: bool, h: int32): int32
    requires newSize.Valid()
  {
    if isSmaller then newSize.MapInt(h) else h
  }

  /** The int fold with the corrected `mapInt`, which reduces the value itself. */
  function FoldIntIntended(newSize: HashSize, isSmaller: bool, h: int32): int32
    requires newSize.Valid()
  {
    if isSmaller then newSize.MapIntResidue(h) else h
  }

  /** `isSmaller ? newSize.mapLong(h) : h`. */
  function FoldLong(newSize: HashSize, isSmaller: bool, h: int64): int64
    requires newSize.Valid()
  {
    if isSmaller then newSize.MapLong(h) else h
  }

  /** `isSmaller ? newSize.mapBig(h) : h`. */
  function FoldBig(newSize: HashSize, isSmaller: bool, h: int): int
    requires newSize.Valid()
  {
    if isSmaller then newSize.MapBig(h) else h
  }

  /** Without a smaller target every fold passes its value through. */
  lemma FoldsPassThrough(newSize: HashSize, i: int32, l: int64, b: int)
    requires newSize.Valid()
    ensures FoldInt(newSize, false, i) == i
    ensures FoldLong(newSize, false, l) == l
    ensures FoldBig(newSize, false, b) == b
  {
  }

  /**
   * Into a smaller target the folds reduce modulo the new capacity: the big
   * fold exactly, the long fold read unsigned within long capacity. The int
   * fold lands below the capacity read unsigned, and is the residue only
   * where the source's `mapInt` reduces the value itself (`MapIntExact`).
   */
  lemma FoldsReduce(newSize: HashSize, i: int32, l: int64, b: int)
    requires newSize.Valid()
    ensures newSize.intCapacity ==> Unsigned32(FoldInt(newSize, true, i)) < newSize.bigSize
    ensures newSize.intCapacity && MapIntExact(newSize, i) ==>
      Unsigned32(FoldInt(newSize, true, i)) == i % newSize.bigSize
    ensures newSize.longCapacity ==> Unsigned64(FoldLong(newSize, true, l)) == l % newSize.bigSize
    ensures FoldBig(newSize, true, b) == b % newSize.bigSize
    ensures 0 <= FoldBig(newSize, true, b) < newSize.bigSize
  {
    if newSize.intCapacity {
      MapIntBounded(newSize, i);
      if MapIntExact(newSize, i) {
        MapIntAgreesWhereExact(newSize, i);
      }
    }
    if newSize.longCapacity {
      MapLongResidue(newSize, l);
    }
    MapBigResidue(newSize, b);
  }

  /**
   * The corrected int fold: into a smaller int-capacity target it is the
   * residue read unsigned, and it is the low half of the long and big folds.
   * Where the source's `mapInt` reduces the value itself it equals `FoldInt`.
   */
  lemma FoldIntIntendedAgrees(newSize: HashSize, isSmaller: bool, h: int32)
    requires newSize.Valid() && newSize.intCapacity
    ensures isSmaller ==> Unsigned32(FoldIntIntended(newSize, isSmaller, h)) == h % newSize.bigSize
    ensures FoldIntIntended(newSize, isSmaller, h) == Wrap32(FoldLong(newSize, isSmaller, h))
    ensures FoldIntIntended(newSize, isSmaller, h) == Wrap32(FoldBig(newSize, isSmaller, h))
    ensures !isSmaller || MapIntExact(newSize, h) ==> FoldIntIntended(newSize, isSmaller, h) == FoldInt(newSize, isSmaller, h)
  {
    if isSmaller {
      MapIntResidueAgrees(newSize, h);
      if MapIntExact(newSize, h) {
        MapIntAgreesWhereExact(newSize, h);
      }
    } else {
      Wrap32Id(h);
    }
  }

  /**
   * An int-tier adapter resizing to capacity 3 folds the int -2 to 0, while
   * its long fold gives 1: the int view is not the low half of the long view.
   */
  lemma IntTierViewsDisagree()
    ensures OfBig(3).Valid()
    ensures FoldInt(OfBig(3), true, -2) == 0
    ensures Wrap32(FoldLong(OfBig(3), true, -2)) == 1
  {
    MapIntOfMinusTwo();
    Wrap32Id(1);
  }

  /** Resizing to the short-wide size keeps the low 16 bits, `h & 0xffff`. */
  lemma FoldToShort(h: int32)
    ensures SHORT_SIZE.Valid()
    ensures FoldInt(SHORT_SIZE, true, h) == h % TWO_16
  {
    ShortSizeFields();
    FlagsMeaning(SHORT_SIZE);
    var r := FoldInt(SHORT_SIZE, true, h);
    FoldsReduce(SHORT_SIZE, h, 0, 0);
    Unsigned32Small(r);
  }

  /** The int-tier `intHashValue`: the folded int hash of the wrapped hasher. */
  function IntTierIntHash(newSize: HashSize, isSmaller: bool, h: int32): int32
    requires newSize.Valid()
  {
    FoldInt(newSize, isSmaller, h)
  }

  /** The long-tier `intHashValue` and `sizedIntValue`: the low 32 bits of the folded long. */
  function LongTierInt(newSize: HashSize, isSmaller: bool, h: int64): int32
    requires newSize.Valid()
  {
    Wrap32(FoldLong(newSize, isSmaller, h))
  }

  /** The big-tier `sizedIntValue`: `sizedBigValue(code).intValue()`. */
  function BigTierInt(newSize: HashSize, isSmaller: bool, h: int): int32
    requires newSize.Valid()
  {
    Wrap32(FoldBig(newSize, isSmaller, h))
  }

  /** The big-tier `sizedLongValue`: `sizedBigValue(code).longValue()`. */
  function BigTierLong(newSize: HashSize, isSmaller: bool, h: int): int64
    requires newSize.Valid()
  {
    Wrap64(FoldBig(newSize, isSmaller, h))
  }

  /** Folding a long into an int-capacity target leaves a remainder the int view reads back unsigned. */
  lemma LongTierIntReduces(newSize: HashSize, h: int64)
    requires newSize.Valid() && newSize.intCapacity
    ensures Unsigned32(LongTierInt(newSize, true, h)) == h % newSize.bigSize
  {
    FlagsMeaning(newSize);
    MapLongResidue(newSize, h);
    var l := newSize.MapLong(h);
    Pow2Constants();
    ModModMultiple(l, TWO_32, TWO_32);
    DivModUnique(h % newSize.bigSize, TWO_32, 0, h % newSize.bigSize);
  }

  /** Into a smaller target the big-tier int and long views read back unsigned as the residue. */
  lemma BigTierReduces(newSize: HashSize, h: int)
    requires newSize.Valid()
    ensures newSize.intCapacity ==> Unsigned32(BigTierInt(newSize, true, h)) == h % newSize.bigSize
    ensures newSize.longCapacity ==> Unsigned64(BigTierLong(newSize, true, h)) == h % newSize.bigSize
  {
    FlagsMeaning(newSize);
    MapBigResidue(newSize, h);
    if newSize.intCapacity {
      SmallResidue32(h % newSize.bigSize, newSize.bigSize);
    }
    if newSize.longCapacity {
      SmallResidue64(h % newSize.bigSize, newSize.bigSize);
    }
  }

  /**
   * An int-tier adapter's int fold is the low half of its long and big folds
   * when it passes the value through, or where `mapInt` reduces the value
   * itself; `IntTierViewsDisagree` shows a case outside these.
   */
  lemma IntTierViewsAgree(newSize: HashSize, isSmaller: bool, h: int32)
    requires newSize.Valid() && newSize.intCapacity
    ensures !isSmaller || MapIntExact(newSize, h) ==> FoldInt(newSize, isSmaller, h) == Wrap32(FoldLong(newSize, isSmaller, h))
    ensures !isSmaller || MapIntExact(newSize, h) ==> FoldInt(newSize, isSmaller, h) == Wrap32(FoldBig(newSize, isSmaller, h))
  {
    FoldIntIntendedAgrees(newSize, isSmaller, h);
  }

  // ---------------------------------------------------------------------------
  // The hooks on a cursor: each reads one element through one view

  /** `sizedIntValue(code)` of an adapter: the int tier reads the int view, the others their own view. */
  function SizedIntOf(h: Hasher, x: int32): int32
    requires h.Resized? && h.newSize.Valid()
  {
    match h.tier
    case IntTier => FoldInt(h.newSize, h.isSmaller, x)
    case LongTier => LongTierInt(h.newSize, h.isSmaller, x)
    case BigTier => BigTierInt(h.newSize, h.isSmaller, x)
  }

  /** `sizedLongValue(code)` of an adapter. */
  function SizedLongOf(h: Hasher, x: int32): int64
    requires h.Resized? && h.newSize.Valid()
  {
    match h.tier
    case IntTier => FoldLong(h.newSize, h.isSmaller, x)
    case LongTier => FoldLong(h.newSize, h.isSmaller, x)
    case BigTier => BigTierLong(h.newSize, h.isSmaller, x)
  }

  /** `sizedBigValue(code)` of an adapter: every tier folds the big view. */
  function SizedBigOf(h: Hasher, x: int): int
    requires h.Resized? && h.newSize.Valid()
  {
    FoldBig(h.newSize, h.isSmaller, x)
  }

  /**
   * On an int element the sized views of a resized hasher are consistent:
   * the int view is the low half of the long view, and into a smaller target
   * all three are the element modulo the new capacity. For the long and big
   * tiers this holds always; for the int tier, whose int view goes through
   * `mapInt`, where that passes the value through or reduces it itself.
   */
  lemma SizedViewsConsistent(h: Hasher, x: int32)
    requires h.Resized? && h.Valid() && h.newSize.intCapacity
    ensures h.tier != IntTier || !h.isSmaller || MapIntExact(h.newSize, x) ==> SizedIntOf(h, x) == Wrap32(SizedLongOf(h, x))
    ensures h.tier != IntTier || !h.isSmaller || MapIntExact(h.newSize, x) ==> SizedIntOf(h, x) == Wrap32(SizedBigOf(h, x))
    ensures h.isSmaller ==> SizedBigOf(h, x) == x % h.newSize.bigSize
    ensures h.tier != IntTier || MapIntExact(h.newSize, x) ==>
      h.isSmaller ==> Unsigned32(SizedIntOf(h, x)) == x % h.newSize.bigSize
  {
    var s := h.newSize;
    FoldIntIntendedAgrees(s, h.isSmaller, x);
    Wrap32OfWrap64(FoldBig(s, h.isSmaller, x));
    if h.tier == IntTier {
      assert SizedIntOf(h, x) == FoldInt(s, h.isSmaller, x);
    } else {
      assert SizedIntOf(h, x) == FoldIntIntended(s, h.isSmaller, x);
    }
    if h.isSmaller {
      FoldsReduce(s, x, x, x);
    }
  }

  /** `sizedIntValue(code)` on an int-array code: one element is read through the tier's view and folded. */
  method SizedIntValue(h: Hasher, code: IntsHashCode) returns (r: Result<int32>)
    requires h.Resized? && h.newSize.Valid() && code.Valid()
    modifies code
    ensures code.Valid()
    ensures old(code.HasNext()) ==>
      r == Ok(SizedIntOf(h, code.intValues[old(code.index)])) && code.index == old(code.index) + 1
    ensures !old(code.HasNext()) ==> r == Err(NoSuchElement) && code.index == old(code.index)
  {
    match h.tier
    case IntTier =>
      var v := code.IntValue();
      r := if v.Ok? then Ok(FoldInt(h.newSize, h.isSmaller, v.value)) else Err(v.error);
    case LongTier =>
      var v := code.LongValue();
      r := if v.Ok? then Ok(LongTierInt(h.newSize, h.isSmaller, v.value)) else Err(v.error);
    case BigTier =>
      var v := code.BigValue();
      r := if v.Ok? then Ok(BigTierInt(h.newSize, h.isSmaller, v.value)) else Err(v.error);
  }

  /** `sizedLongValue(code)` on an int-array code. */
  method SizedLongValue(h: Hasher, code: IntsHashCode) returns (r: Result<int64>)
    requires h.Resized? && h.newSize.Valid() && code.Valid()
    modifies code
    ensures code.Valid()
    ensures old(code.HasNext()) ==>
      r == Ok(SizedLongOf(h, code.intValues[old(code.index)])) && code.index == old(code.index) + 1
    ensures !old(code.HasNext()) ==> r == Err(NoSuchElement) && code.index == old(code.index)
  {
    match h.tier
    case IntTier =>
      var v := code.LongValue();
      r := if v.Ok? then Ok(FoldLong(h.newSize, h.isSmaller, v.value)) else Err(v.error);
    case LongTier =>
      var v := code.LongValue();
      r := if v.Ok? then Ok(FoldLong(h.newSize, h.isSmaller, v.value)) else Err(v.error);
    case BigTier =>
      var v := code.BigValue();
      r := if v.Ok? then Ok(BigTierLong(h.newSize, h.isSmaller, v.value)) else Err(v.error);
  }

  /** `sizedBigValue(code)` on an int-array code. */
  method SizedBigValue(h: Hasher, code: IntsHashCode) returns (r: Result<int>)
    requires h.Resized? && h.newSize.Valid() && code.Valid()
    modifies code
    ensures code.Valid()
    ensures old(code.HasNext()) ==>
      r == Ok(SizedBigOf(h, code.intValues[old(code.index)])) && code.index == old(code.index) + 1
    ensures !old(code.HasNext()) ==> r == Err(NoSuchElement) && code.index == old(code.index)
  {
    var v := code.BigValue();
    r := if v.Ok? then Ok(FoldBig(h.newSize, h.isSmaller, v.value)) else Err(v.error);
  }

  /** An adapter to the short-wide size folds each int element to its low 16 bits. */
  lemma SizedToShort(h: Hasher, x: int32)
    requires h.Resized? && h.newSize == SHORT_SIZE && h.isSmaller && h.tier == IntTier
    ensures h.newSize.Valid() && SizedIntOf(h, x) == x % TWO_16
  {
    FoldToShort(x);
  }

  /**
   * Draining an int code through `sizedIntValue`, element by element: each
   * value is the element read through the tier's view and folded. With
   * `SizedToShort`, resizing to the short-wide size yields each element `& 0xffff`.
   */
  method DrainSized(h: Hasher, code: IntsHashCode) returns (values: seq<int32>)
    requires h.Resized? && h.newSize.Valid()
    requires code.Valid() && code.index == 0
    modifies code
    ensures code.Valid() && !code.HasNext()
    ensures |values| == code.intValues.Length
    ensures forall k :: 0 <= k < |values| ==> values[k] == SizedIntOf(h, code.intValues[k])
  {
    values := [];
    while code.HasNext()
      invariant code.Valid() && |values| == code.index
      invariant forall k :: 0 <= k < |values| ==> values[k] == SizedIntOf(h, code.intValues[k])
      decreases code.intValues.Length - code.index
    {
      var v := SizedIntValue(h, code);
      values := values + [v.value];
    }
  }
}
