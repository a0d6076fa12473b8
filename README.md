# A verified model of the core of com.tomgibara.hashing

This project models the core of the Java library `com.tomgibara.hashing` in Dafny.
The library turns arbitrary values into hashes whose range is a chosen capacity.
The model covers these parts:

- **Capacity descriptor** (`HashSize`). It holds a capacity of one or more values and the fields derived from it once, at construction: the bit count, the power-of-two flag, the masks, and the int and long tiers. It folds an `int`, a `long` or a `BigInteger` into that capacity (`mapInt`, `mapLong`, `mapBig`).
- **Resizing adapters** (`Hasher.sized`, `SizedHasher` and its int, long and big tiers). They fold every element a hasher produces into a new size.
- **`distinct`**, `ints` and `longs`. These build the distinct selector and the two double-hashing generators (`IntsHasher`, `LongsHasher`). The generators produce unbounded sequences `spread(seed) ^ (i * probe)`.
- **Hash results** (`HashCode`, `HashValue` and their single-value and cursor implementations). A result gives int, long, big and byte views of one value, or of a sequence of values read through a cursor.
- **Byte codecs** of `AbstractHashCode`. These convert ints, longs and big integers to big-endian bytes and back.
- **The MurmurHash3_x86_32 stream** (`Murmur3IntHash`, `MurmurIntHash`, `Murmur3_32Hash`). It is related to a functional statement of the algorithm.
- **`RandomHash`**. It chooses how to draw a value below the capacity from a seeded generator, and condenses the written data into the seed.
- **The legacy multi-hash helpers**: `AbstractMultiHash`, `AdaptedMultiHash`, `IntMultiHasher`, `IntegerMultiHash`, the reranging hashes, `CondensingWriteStream` and `Hashes`.

Conventions used throughout:

- **Java integers.** An `int`, `long` or `byte` is a Dafny `int` constrained to its range (`int32`, `int64`, `int8`). Every wrap-around is written out (`Wrap32`, `Wrap64`, `Wrap8`).
- **`BigInteger`** is an unbounded `int`.
- **Bit-mixing code** (Murmur, the `spread` functions, `Hashes.hashCode(long)`) is written on `bv32` and `bv64`.
- **Java's `%`, `Math.abs` and `&`** are modelled explicitly (`JavaRem`, `Abs32`, `Abs64`, `AndBits`). Java's `%` truncates toward zero, `Math.abs(Integer.MIN_VALUE)` is negative, and `&` acts on the two's-complement bits.
- **Nulls** are `Option` arguments.
- **Exceptions** are the `Err` case of a `Result`: `IllegalArgument`, `Arithmetic`, `NoSuchElement`, `UnsupportedOperation`.
- **State.**
  - Objects that the library updates in place are classes whose methods modify their fields: the cursors, the Murmur stream, the condensing streams and the random generator.
  - The `AbstractMultiHash` copies and the multi-hash fills work on arrays.
  - Everything else is functions on datatypes.
- **`MurmurIntHash.java` and `Murmur3IntHash.java`** hold the same streaming algorithm. One class, `Murmur.MurmurStream`, models both.
- **Corrected definitions.** Where the code and its evident intent differ (see "## Findings"), the as-written behaviour is stated and the corrected one is proved. The rest of the model keeps the source's behaviour throughout: `mapInt` and the int-tier folds of `SizedIntHasher`, the `RandomHash` kind choice, the big views of `LongsHashValue` and `RandomHash`, the multi-hash elements and the `CondensingWriteStream` and `LongSeedingStream` byte steps. The corrected definitions appear only in the lemmas that compare them with the source.

## Model

| member | source | states |
|---|---|---|
| Codecs.BigFromBytesBound | src/main/java/com/tomgibara/hashing/AbstractHashCode.java:103-105 | the unsigned reading of n bytes lies below 2^(8n) |
| Codecs.BigFromBytesSnoc | src/main/java/com/tomgibara/hashing/AbstractHashCode.java:103-105 | appending a byte to the input appends one base-256 digit to the unsigned reading |
| Codecs.TwosBytes | src/main/java/com/tomgibara/hashing/AbstractHashCode.java:24-44 | the low n two's-complement bytes of a value, most significant first, have length n |
| Codecs.TwosBytesValue | src/main/java/com/tomgibara/hashing/AbstractHashCode.java:24-44 | n bytes of v written by arithmetic shifts and read back unsigned give v modulo 2^(8n) |
| Codecs.TwosBytesOfBigFromBytes | src/main/java/com/tomgibara/hashing/AbstractHashCode.java:103-105 | reading bytes unsigned and writing the same number of bytes back gives the original bytes |
| Codecs.TwosBytesCongruent | src/main/java/com/tomgibara/hashing/AbstractHashCode.java:24-44 | the written bytes depend only on v modulo 2^(8n) |
| Codecs.TwosBytesSplit | src/main/java/com/tomgibara/hashing/AbstractHashCode.java:33-44 | the a + b low bytes are the a bytes above the b low bytes followed by the b low bytes |
| Codecs.IntToBytes | src/main/java/com/tomgibara/hashing/AbstractHashCode.java:24-31 | `intToBytes` gives exactly four big-endian bytes whose unsigned reading is the int modulo 2^32 |
| Codecs.LongToBytes | src/main/java/com/tomgibara/hashing/AbstractHashCode.java:33-44 | `longToBytes` gives exactly eight big-endian bytes whose unsigned reading is the long modulo 2^64 |
| Codecs.FourBytes | src/main/java/com/tomgibara/hashing/AbstractHashCode.java:24-31 | the four bytes are `(byte) (v >> 24)`, `(byte) (v >> 16)`, `(byte) (v >> 8)`, `(byte) v` |
| Codecs.EightBytes | src/main/java/com/tomgibara/hashing/AbstractHashCode.java:33-44 | the eight bytes are the four bytes above 2^32 followed by the four below, each `(byte) (v >> 8k)` |
| Codecs.BigFromBytes4 | src/main/java/com/tomgibara/hashing/AbstractHashCode.java:60-72 | the one-, two- and three-byte cases of `intFromBytes` are the unsigned big-endian digits |
| Codecs.IntFromBytes | src/main/java/com/tomgibara/hashing/AbstractHashCode.java:57-80 | empty input gives 0, one to three bytes give their unsigned big-endian value, four or more give the last four bytes read as a signed int |
| Codecs.SignedTopByte | src/main/java/com/tomgibara/hashing/AbstractHashCode.java:74-78 | an unmasked (signed) top byte above three masked bytes is the 32-bit narrowing of the unsigned reading |
| Codecs.IntRoundTrip | src/main/java/com/tomgibara/hashing/AbstractHashCode.java:24-80 | `intFromBytes(intToBytes(v)) == v` for every int |
| Codecs.IntBytesRoundTrip | src/main/java/com/tomgibara/hashing/AbstractHashCode.java:24-80 | encoding the decoded value of four or more bytes gives back their last four bytes |
| Codecs.LongFromLastEight | src/main/java/com/tomgibara/hashing/AbstractHashCode.java:84-94 | the eight-byte branch of `longFromBytes` is the last eight bytes read as a signed long |
| Codecs.LongFromBytes | src/main/java/com/tomgibara/hashing/AbstractHashCode.java:82-101 | eight or more bytes give the last eight read as a signed long; fewer give the unsigned accumulation (0 for none); the loop keeps the accumulation of the prefix read so far |
| Codecs.LongRoundTrip | src/main/java/com/tomgibara/hashing/AbstractHashCode.java:33-101 | `longFromBytes(longToBytes(v)) == v` for every long |
| Codecs.LongBytesRoundTrip | src/main/java/com/tomgibara/hashing/AbstractHashCode.java:33-101 | encoding the decoded value of eight or more bytes gives back their last eight bytes |
| Codecs.ToByteArrayHolds | src/main/java/com/tomgibara/hashing/AbstractHashCode.java:47 | the minimal encoding of a non-negative value holds it with the sign bit clear |
| Codecs.BigToBytes | src/main/java/com/tomgibara/hashing/AbstractHashCode.java:46-55 | a non-negative len gives exactly len bytes, the low len two's-complement bytes of a non-negative value (truncated or zero-padded); a negative len fails with IllegalArgument |
| Codecs.PaddedBytes | src/main/java/com/tomgibara/hashing/AbstractHashCode.java:52-54 | zero bytes in front of a non-negative value's minimal encoding extend its two's complement |
| Codecs.BigRoundTrip | src/main/java/com/tomgibara/hashing/AbstractHashCode.java:46-105 | decoding the len-byte encoding of a non-negative value gives the value modulo 2^(8 len) |
| Codecs.BigBytesRoundTrip | src/main/java/com/tomgibara/hashing/AbstractHashCode.java:46-105 | encoding the unsigned reading of some bytes at their own length gives the same bytes |
| Codecs.Trim | src/main/java/com/tomgibara/hashing/AbstractHashCode.java:114-118 | `trim` keeps the last `size.getBytes()` bytes, and fails unless that count lies between 0 and the length |
| HashSizes.HashSize.AsInt | src/main/java/com/tomgibara/hashing/HashSize.java:236-239 | `asInt` succeeds exactly when the capacity is at most 2^31, with an int congruent to the capacity modulo 2^32; otherwise ArithmeticException |
| HashSizes.HashSize.AsLong | src/main/java/com/tomgibara/hashing/HashSize.java:271-274 | `asLong` succeeds exactly when the capacity is at most 2^63, with a long congruent to the capacity modulo 2^64; otherwise ArithmeticException |
| HashSizes.HashSize.AsPositiveInt | src/main/java/com/tomgibara/hashing/HashSize.java:227-239 | the documented `asInt`: succeeds exactly when the capacity is below 2^31, returning the capacity itself, which is positive |
| HashSizes.HashSize.AsPositiveLong | src/main/java/com/tomgibara/hashing/HashSize.java:262-274 | the documented `asLong`: succeeds exactly when the capacity is below 2^63, returning the capacity itself, which is positive |
| HashSizes.HashSize.MapIntResidue | src/main/java/com/tomgibara/hashing/HashSize.java:278-296 | corrected `mapInt`: within int capacity the unsigned result is the value modulo the capacity; beyond it the value is unchanged |
| HashSizes.HashSize.CompareTo | src/main/java/com/tomgibara/hashing/HashSize.java:335-338 | `compareTo` is negative, zero or positive exactly as this capacity is below, equal to or above the other |
| HashSizes.HighestOneBitIsPowerOfTwo | src/main/java/com/tomgibara/hashing/HashSize.java:132-162 | for a positive s, `highestOneBit(s) == s` holds exactly when `bitCount(s) == 1` |
| HashSizes.OfIntAgrees | src/main/java/com/tomgibara/hashing/HashSize.java:128-157 | the int constructor builds the same descriptor as the BigInteger constructor, and a valid one |
| HashSizes.OfLongAgrees | src/main/java/com/tomgibara/hashing/HashSize.java:128-172 | the long constructor builds the same descriptor as the BigInteger constructor, and a valid one |
| HashSizes.OfBig | src/main/java/com/tomgibara/hashing/HashSize.java:128-142 | the `HashSize(BigInteger)` constructor's fields (no contract; see `SharedFields`, `BitsMeaning`, `FlagsMeaning`, `NarrowedFields`) |
| HashSizes.OfInt | src/main/java/com/tomgibara/hashing/HashSize.java:144-157 | the `HashSize(int)` constructor's fields (no contract; see `OfIntAgrees`) |
| HashSizes.OfLong | src/main/java/com/tomgibara/hashing/HashSize.java:159-172 | the `HashSize(long)` constructor's fields (no contract; see `OfLongAgrees`) |
| HashSizes.SharedFields | src/main/java/com/tomgibara/hashing/HashSize.java:131-162 | `64 - numberOfLeadingZeros(s - 1)` (and the int form) is the bit length of s - 1, and `highestOneBit(s) == s` is the power-of-two flag |
| HashSizes.BitsMeaning | src/main/java/com/tomgibara/hashing/HashSize.java:131-133 | `bits` is the least b with capacity at most 2^b; a power of two is exactly 2^bits; `mask` is 2^bits - 1 |
| HashSizes.FlagsMeaning | src/main/java/com/tomgibara/hashing/HashSize.java:134-141 | int-sized means capacity at most 2^31, int capacity at most 2^32, long-sized at most 2^63, long capacity at most 2^64, with the implications among them, and the narrowed sizes and masks congruent to the capacity and capacity - 1 |
| HashSizes.FlagsRange | src/main/java/com/tomgibara/hashing/HashSize.java:134-139 | the four flags against the widths 2^31, 2^32, 2^63 and 2^64 |
| HashSizes.NarrowedFields | src/main/java/com/tomgibara/hashing/HashSize.java:136-141 | `intSize`, `intMask`, `longSize` and `longMask` are the capacity and the capacity minus one modulo the width |
| HashSizes.IntCapacitySizes | src/main/java/com/tomgibara/hashing/HashSize.java:135-140 | within int capacity the size is long-sized and the long size is the capacity exactly |
| HashSizes.CapacityOneHasNoBits | src/main/java/com/tomgibara/hashing/HashSize.java:186-194 | capacity 1 gives `bits == 0`, although `getBits` is documented as always positive |
| HashSizes.NonPowerSizes | src/main/java/com/tomgibara/hashing/HashSize.java:134-140 | an int-sized (long-sized) non-power of two is below 2^31 (2^63) and equal to its narrowed size |
| HashSizes.IntMaskResidue | src/main/java/com/tomgibara/hashing/HashSize.java:293 | within int capacity, `value & intMask` of a power of two is the value modulo the capacity, read unsigned |
| HashSizes.LongMaskResidue | src/main/java/com/tomgibara/hashing/HashSize.java:313 | within long capacity, `value & longMask` of a power of two is the value modulo the capacity, read unsigned |
| HashSizes.MaskNonNegative | src/main/java/com/tomgibara/hashing/HashSize.java:133 | the BigInteger mask is never negative |
| HashSizes.PowerOfTwoFields | src/main/java/com/tomgibara/hashing/HashSize.java:131-133 | a power-of-two capacity is 2^bits |
| HashSizes.OfPow2 | src/main/java/com/tomgibara/hashing/HashSize.java:128-142 | capacity 2^k gives a valid descriptor with k bits flagged as a power of two |
| HashSizes.ByteSizeFields | src/main/java/com/tomgibara/hashing/HashSize.java:42 | `BYTE_SIZE` has 8 bits, is a power of two and is int-sized |
| HashSizes.ShortSizeFields | src/main/java/com/tomgibara/hashing/HashSize.java:49 | `SHORT_SIZE` has 16 bits, is a power of two and is int-sized |
| HashSizes.IntSizeFields | src/main/java/com/tomgibara/hashing/HashSize.java:56 | `INT_SIZE` has 32 bits and int capacity, is not int-sized, and its int mask is -1 |
| HashSizes.LongSizeFields | src/main/java/com/tomgibara/hashing/HashSize.java:63 | `LONG_SIZE` has 64 bits and long capacity, is not long-sized, and its long mask is -1 |
| HashSizes.FromByteLength | src/main/java/com/tomgibara/hashing/HashSize.java:66-76 | `fromByteLength` fails for a non-positive length and returns the shared instances for 1, 2, 4 and 8; for every length below 2^28, where `8 * byteLength` does not wrap, it is the corrected `FromByteLengthExact`, a valid size of capacity 2^(8n) |
| HashSizes.ShiftLeftOne | src/main/java/com/tomgibara/hashing/HashSize.java:74-87 | `BigInteger.ONE.shiftLeft(n)` is 2^n for n >= 0 and 0 for a negative distance |
| HashSizes.FromByteLengthOverflow | src/main/java/com/tomgibara/hashing/HashSize.java:74 | `fromByteLength(0x20000001)` succeeds with capacity 256, because `8 * byteLength` wraps |
| HashSizes.FromByteLengthExact | src/main/java/com/tomgibara/hashing/HashSize.java:66-76 | corrected `fromByteLength`: every positive n gives the valid capacity 2^(8n) with 8n bits |
| HashSizes.FromBitLength | src/main/java/com/tomgibara/hashing/HashSize.java:79-89 | `fromBitLength` fails for a non-positive length; otherwise capacity 2^n with n bits, the shared instance for 8, 16, 32 and 64 |
| HashSizes.FromBig | src/main/java/com/tomgibara/hashing/HashSize.java:91-95 | `fromBig` rejects null and non-positive sizes and otherwise keeps the capacity |
| HashSizes.FromInt | src/main/java/com/tomgibara/hashing/HashSize.java:97-100 | `fromInt`: 0 is `INT_SIZE`, a positive s has capacity s, a negative s has capacity 2^32 - s, beyond int capacity |
| HashSizes.FromLong | src/main/java/com/tomgibara/hashing/HashSize.java:102-106 | `fromLong`: 0 is `LONG_SIZE`, a positive s has capacity s, a negative s has capacity 2^32 - s |
| HashSizes.FromIntOfMinusOne | src/main/java/com/tomgibara/hashing/HashSize.java:97-100 | `fromInt(-1)` has capacity 2^32 + 1, not the unsigned reading 2^32 - 1 |
| HashSizes.FromIntUnsigned | src/main/java/com/tomgibara/hashing/HashSize.java:97-100 | corrected `fromInt`: the unsigned reading of the int (2^32 for 0), always within int capacity, agreeing with `fromInt` on non-negative sizes |
| HashSizes.FromLongOfMinusOne | src/main/java/com/tomgibara/hashing/HashSize.java:102-106 | `fromLong(-1)` has capacity 2^32 + 1, beyond int capacity, not the unsigned reading 2^64 - 1 |
| HashSizes.FromLongUnsigned | src/main/java/com/tomgibara/hashing/HashSize.java:102-106 | corrected `fromLong`: the unsigned reading of the long (2^64 for 0), always within long capacity, agreeing with `fromLong` on non-negative sizes |
| HashSizes.MapIntPowerOfTwo | src/main/java/com/tomgibara/hashing/HashSize.java:293 | for a power of two `mapInt` is the value modulo the capacity, read unsigned |
| HashSizes.MapIntNonNegative | src/main/java/com/tomgibara/hashing/HashSize.java:294 | for an int-sized non-power of two and a non-negative value `mapInt` is `value % capacity` |
| HashSizes.MapIntOtherwise | src/main/java/com/tomgibara/hashing/HashSize.java:295 | in the last branch `mapInt` is (2^32 - value) modulo the capacity |
| HashSizes.MapIntBounded | src/main/java/com/tomgibara/hashing/HashSize.java:288-296 | within int capacity the unsigned result of `mapInt` lies below the capacity, as documented |
| HashSizes.MapIntOfIntSize | src/main/java/com/tomgibara/hashing/HashSize.java:291-296 | `INT_SIZE.mapInt` is the identity |
| HashSizes.MapIntOfZeroNonZero | src/main/java/com/tomgibara/hashing/HashSize.java:291-316 | with capacity 3 * 2^30, `mapInt(0)` is 2^30 while `mapLong(0)` is 0 |
| HashSizes.MapIntAgreesWhereExact | src/main/java/com/tomgibara/hashing/HashSize.java:291-296 | for a power of two, or an int-sized capacity and a non-negative value, the as-written `mapInt` equals the corrected one and is the residue read unsigned |
| HashSizes.MapIntOfMinusTwo | src/main/java/com/tomgibara/hashing/HashSize.java:291-316 | capacity 3 maps -2 to 0 under `mapInt` and to 1, the residue, under `mapLong` |
| HashSizes.HashSize.MapInt | src/main/java/com/tomgibara/hashing/HashSize.java:291-296 | `mapInt` as written; without int capacity the value passes through (see `MapIntPowerOfTwo`, `MapIntNonNegative`, `MapIntOtherwise`, `MapIntBounded`) |
| HashSizes.HashSize.MapLong | src/main/java/com/tomgibara/hashing/HashSize.java:311-316 | `mapLong`; without long capacity the value passes through (see `MapLongResidue`, `MapLongSigned`) |
| HashSizes.HashSize.MapBig | src/main/java/com/tomgibara/hashing/HashSize.java:329-331 | `mapBig`: the mask for a power of two, `mod` otherwise (no contract; see `MapBigResidue`) |
| HashSizes.MapIntResidueAgrees | src/main/java/com/tomgibara/hashing/HashSize.java:291-331 | the corrected `mapInt` is the int narrowing of `mapLong` and of `mapBig` |
| HashSizes.MapLongResidue | src/main/java/com/tomgibara/hashing/HashSize.java:311-316 | within long capacity the unsigned result of `mapLong` is the value modulo the capacity |
| HashSizes.MapLongSigned | src/main/java/com/tomgibara/hashing/HashSize.java:311-316 | for a long-sized capacity `mapLong` is the non-negative residue of the signed value |
| HashSizes.MapLongOfLongSize | src/main/java/com/tomgibara/hashing/HashSize.java:311-316 | `LONG_SIZE.mapLong` is the identity |
| HashSizes.MapBigResidue | src/main/java/com/tomgibara/hashing/HashSize.java:329-331 | `mapBig` is the residue modulo the capacity, in [0, capacity), for either sign and either branch |
| HashSizes.AsIntOfTwoPow31 | src/main/java/com/tomgibara/hashing/HashSize.java:236-239 | `asInt` of capacity 2^31 succeeds with `Integer.MIN_VALUE`, not a positive value |
| HashSizes.AsLongOfTwoPow63 | src/main/java/com/tomgibara/hashing/HashSize.java:271-274 | `asLong` of capacity 2^63 succeeds with `Long.MIN_VALUE` |
| HashSizes.EqualsMeansSameCapacity | src/main/java/com/tomgibara/hashing/HashSize.java:335-348 | for valid descriptors `equals` holds exactly when the descriptors are identical and when `compareTo` is 0; it is symmetric and `compareTo` is antisymmetric |
| Hashers.ValidSize | src/main/java/com/tomgibara/hashing/Hasher.java:48-70 | every hasher the wrappers build has a valid size |
| Hashers.NewSized | src/main/java/com/tomgibara/hashing/SizedHasher.java:30-45 | a sized adapter reports the new size and the wrapped hasher's quantity, and is smaller exactly when the new capacity is below the old one |
| Hashers.Sized | src/main/java/com/tomgibara/hashing/Hasher.java:48-55 | `sized` rejects null with IllegalArgumentException, returns the hasher itself for an equal size, and otherwise wraps it in the adapter its old size's tier picks |
| Hashers.TierOf | src/main/java/com/tomgibara/hashing/Hasher.java:50-54 | the adapter `sized` picks: int within int capacity, long within long capacity, big otherwise (no contract; see `TierBounds`) |
| Hashers.SizedMeetsRequest | src/main/java/com/tomgibara/hashing/Hasher.java:48-55 | whatever `sized` returns is a valid hasher of the requested size and the same quantity |
| Hashers.SizedIdempotent | src/main/java/com/tomgibara/hashing/Hasher.java:48-55 | resizing twice to the same size adds no second adapter |
| Hashers.TierBounds | src/main/java/com/tomgibara/hashing/Hasher.java:52-54 | the int adapter is chosen exactly for old capacities up to 2^32, the long one up to 2^64, the big one beyond |
| Hashers.BinomialPositive | src/main/java/com/tomgibara/hashing/DistinctHasher.java:26-28 | the number of choices of k of n values is at least 1 when k <= n |
| Hashers.BinomialOfOne | src/main/java/com/tomgibara/hashing/DistinctHasher.java:26-28 | one value can be chosen from n in n ways |
| Hashers.Binomial | src/main/java/com/tomgibara/hashing/DistinctHasher.java:26-28 | the number of k-element choices from n, by Pascal's rule, standing for `Choose.from(n, k).asBigInt()` (no contract; see `BinomialPositive`, `BinomialOfOne`) |
| Hashers.RequiredHashSize | src/main/java/com/tomgibara/hashing/DistinctHasher.java:26-28 | `requiredHashSize` is positive and is max for multiplicity 1 |
| Hashers.NewDistinct | src/main/java/com/tomgibara/hashing/DistinctHasher.java:36-53 | the distinct hasher reports the given size and quantity, over the hasher resized to the number of choices |
| Hashers.IntViewOfCapacity | src/main/java/com/tomgibara/hashing/Hasher.java:61 | `size.asBig().intValue()` of an int-sized capacity is the capacity, except 2^31, which reads as `Integer.MIN_VALUE` |
| Hashers.DistinctOf | src/main/java/com/tomgibara/hashing/Hasher.java:57-63 | `distinct` succeeds exactly for a non-null size below 2^31 and a quantity in [1, capacity], failing otherwise with IllegalArgumentException |
| Hashers.IntsOf | src/main/java/com/tomgibara/hashing/IntsHasher.java:49-62 | `ints` reports the int-wide size and quantity `Integer.MAX_VALUE`, over the hasher resized to the int-wide size |
| Hashers.LongsOf | src/main/java/com/tomgibara/hashing/LongsHasher.java:33-46 | `longs` reports the long-wide size and quantity `Integer.MAX_VALUE`, over the hasher resized to the long-wide size |
| Hashers.IntsOfIntSized | src/main/java/com/tomgibara/hashing/IntsHasher.java:49-52 | a hasher already of the int-wide size is wrapped by `ints` without an adapter in between |
| Hashers.FoldsPassThrough | src/main/java/com/tomgibara/hashing/SizedIntHasher.java:27-49 | without a smaller target every fold returns its value unchanged |
| Hashers.FoldInt | src/main/java/com/tomgibara/hashing/SizedIntHasher.java:27-37 | the int adapter's fold `isSmaller ? newSize.mapInt(h) : h`, with `mapInt` as written (no contract; see `FoldsReduce`, `IntTierViewsAgree`) |
| Hashers.FoldIntIntended | src/main/java/com/tomgibara/hashing/SizedIntHasher.java:27-37 | the int fold with the corrected `mapInt` (no contract; see `FoldIntIntendedAgrees`) |
| Hashers.FoldLong | src/main/java/com/tomgibara/hashing/SizedIntHasher.java:39-43 | the fold `isSmaller ? newSize.mapLong(h) : h` (no contract; see `FoldsReduce`) |
| Hashers.FoldBig | src/main/java/com/tomgibara/hashing/SizedBigHasher.java:37-41 | the fold `isSmaller ? newSize.mapBig(h) : h` (no contract; see `FoldsReduce`) |
| Hashers.FoldIntIntendedAgrees | src/main/java/com/tomgibara/hashing/SizedIntHasher.java:27-49 | the corrected int fold is the residue read unsigned and the low half of the long and big folds, and equals the as-written fold wherever `mapInt` passes the value through or reduces it itself |
| Hashers.IntTierViewsDisagree | src/main/java/com/tomgibara/hashing/SizedIntHasher.java:33-43 | an int-tier adapter to capacity 3 folds -2 to 0 in its int view and to 1 in its long view, so the int view is not the low half of the long view |
| Hashers.IntTierIntHash | src/main/java/com/tomgibara/hashing/SizedIntHasher.java:27-31 | the int adapter's `intHashValue` is the int fold of the wrapped hasher's int hash (no contract) |
| Hashers.LongTierInt | src/main/java/com/tomgibara/hashing/SizedLongHasher.java:27-47 | the long adapter's `intHashValue` and `sizedIntValue`: the low 32 bits of the long fold (no contract; see `LongTierIntReduces`) |
| Hashers.BigTierInt | src/main/java/com/tomgibara/hashing/SizedBigHasher.java:27-30 | `sizedBigValue(code).intValue()`: the low 32 bits of the big fold (no contract; see `BigTierReduces`) |
| Hashers.BigTierLong | src/main/java/com/tomgibara/hashing/SizedBigHasher.java:32-35 | `sizedBigValue(code).longValue()`: the low 64 bits of the big fold (no contract; see `BigTierReduces`) |
| Hashers.SizedIntOf | src/main/java/com/tomgibara/hashing/SizedIntHasher.java:33-37 | the `sizedIntValue` each tier computes from an int element (no contract; see `SizedViewsConsistent`) |
| Hashers.SizedLongOf | src/main/java/com/tomgibara/hashing/SizedLongHasher.java:43-47 | the `sizedLongValue` each tier computes from an int element (no contract; see `SizedViewsConsistent`) |
| Hashers.SizedBigOf | src/main/java/com/tomgibara/hashing/SizedBigHasher.java:37-41 | the `sizedBigValue` of every tier: the big fold (no contract; see `SizedViewsConsistent`) |
| Hashers.FoldsReduce | src/main/java/com/tomgibara/hashing/SizedIntHasher.java:27-49 | into a smaller target the long and big folds give the value modulo the new capacity (the long read unsigned, the big one in [0, capacity)); the int fold, `mapInt` as written, lies below the capacity read unsigned and is the residue where `mapInt` reduces the value itself (a power of two, or an int-sized capacity and a non-negative value) |
| Hashers.FoldToShort | src/main/java/com/tomgibara/hashing/SizedIntHasher.java:34-37 | resizing an int hash to the short-wide size keeps `h & 0xffff` |
| Hashers.LongTierIntReduces | src/main/java/com/tomgibara/hashing/SizedLongHasher.java:38-47 | the long adapter's int view, `(int) sizedLongValue`, reads back unsigned as the value modulo an int-capacity target |
| Hashers.BigTierReduces | src/main/java/com/tomgibara/hashing/SizedBigHasher.java:27-41 | the big adapter's int and long views read back unsigned as the value modulo the target |
| Hashers.IntTierViewsAgree | src/main/java/com/tomgibara/hashing/SizedIntHasher.java:33-49 | the int adapter's int view is the narrowing of its long and big views when it passes values through, or where `mapInt` reduces the value itself |
| Hashers.SizedViewsConsistent | src/main/java/com/tomgibara/hashing/SizedIntHasher.java:33-49 | on an int element the long and big tiers' int view narrows their long and big views, and into a smaller target all are the element modulo the new capacity; the int tier does so where `mapInt` passes the value through or reduces it itself, and into a smaller target its big view is always the residue |
| Hashers.SizedIntValue | src/main/java/com/tomgibara/hashing/SizedIntHasher.java:33-37 | `sizedIntValue` reads one element through the tier's view and folds it (the int tier with `mapInt` as written), or NoSuchElementException at the end |
| Hashers.SizedLongValue | src/main/java/com/tomgibara/hashing/SizedLongHasher.java:43-47 | `sizedLongValue` reads one element through the tier's view and folds it, or NoSuchElementException |
| Hashers.SizedBigValue | src/main/java/com/tomgibara/hashing/SizedBigHasher.java:37-41 | `sizedBigValue` reads one element's big view and folds it, or NoSuchElementException |
| Hashers.SizedToShort | src/main/java/com/tomgibara/hashing/SizedIntHasher.java:33-37 | an adapter to the short-wide size folds each int element to its low 16 bits |
| Hashers.DrainSized | src/main/java/com/tomgibara/hashing/SizedHasher.java:47-66 | reading an int code to its end through `sizedIntValue` yields each element folded as the tier's adapter folds it, in order |
| DistinctHashing.DecodedViewOf | src/main/java/com/tomgibara/hashing/DistinctHasher.java:58-60 | the long view is decoded exactly when the number of choices is at most 2^63, the big view otherwise |
| DistinctHashing.ChoiceDistinct | src/main/java/com/tomgibara/hashing/DistinctHasher.java:57-60 | an ascending choice holds pairwise distinct values |
| DistinctHashing.Hash | src/main/java/com/tomgibara/hashing/DistinctHasher.java:55-62 | `hash` gives a fresh int cursor, with the int-wide size, over the decoded choice |
| DistinctHashing.DrainDistinct | src/main/java/com/tomgibara/hashing/DistinctHasher.java:55-62 | a distinct hasher's code yields exactly `quantity` pairwise distinct values, each below the size |
| DoubleHashing.WrapIncrement32 | src/main/java/com/tomgibara/hashing/IntsHasher.java:77 | `1 + Math.abs(x)` is exact below `Integer.MAX_VALUE` and wraps to `Integer.MIN_VALUE` at it |
| DoubleHashing.IntsProbe | src/main/java/com/tomgibara/hashing/IntsHasher.java:77 | the int probe is never zero: 1 for `Integer.MIN_VALUE`, `1 + Math.abs(seed)` otherwise, wrapping to `Integer.MIN_VALUE` for `±Integer.MAX_VALUE` |
| DoubleHashing.IntsFirstRead | src/main/java/com/tomgibara/hashing/IntsHasher.java:37-84 | the first int read is the spread seed |
| DoubleHashing.Spread32 | src/main/java/com/tomgibara/hashing/IntsHasher.java:37-45 | the Wang/Jenkins spread of the int seed, on 32 bits (no contract; see `MultiElementHole`) |
| DoubleHashing.IntsRead | src/main/java/com/tomgibara/hashing/IntsHasher.java:73-84 | the k-th read `h ^ (i++) * probe` of a cursor seeded with an int, the counter wrapping (no contract; see `IntsFirstRead`, `IntsPeriod`) |
| DoubleHashing.IntsElement | src/main/java/com/tomgibara/hashing/IntsHasher.java:83 | `h ^ i * probe` in int arithmetic (no contract; see `IntsElementAtZero`) |
| DoubleHashing.IntsElementAtZero | src/main/java/com/tomgibara/hashing/IntsHasher.java:83 | `h ^ 0 * probe` is h |
| DoubleHashing.IntsPeriod | src/main/java/com/tomgibara/hashing/IntsHasher.java:73-83 | the int counter wraps, so the reads repeat with period 2^32 |
| DoubleHashing.IntsMultiHashCode.constructor | src/main/java/com/tomgibara/hashing/IntsHasher.java:75-79 | the cursor keeps the size and the seed, with the probe and spread seed fixed and the counter at 0 |
| DoubleHashing.IntsMultiHashCode.IntValue | src/main/java/com/tomgibara/hashing/IntsHasher.java:81-84 | `intValue` returns the read at the counter and advances it |
| DoubleHashing.IntsMultiHashCode.Advance | src/main/java/com/tomgibara/hashing/IntsHasher.java:83 | `i++` advances the counter by one |
| DoubleHashing.IntsMultiHashCode.LongValue | src/main/java/com/tomgibara/hashing/IntsHasher.java:86-89 | `longValue` returns the next int read, sign-extended |
| DoubleHashing.IntsMultiHashCode.BigValue | src/main/java/com/tomgibara/hashing/IntsHasher.java:91-94 | `bigValue` returns the next int read |
| DoubleHashing.IntsMultiHashCode.BytesValue | src/main/java/com/tomgibara/hashing/IntsHasher.java:96-99 | `bytesValue` is the next int's four bytes trimmed to the size's byte count |
| DoubleHashing.LongsProbe | src/main/java/com/tomgibara/hashing/LongsHasher.java:61 | the long probe is 1 for `Long.MIN_VALUE` and, for a seed widened from an int, `1 + Math.abs(seed)` without wrapping, in [1, 2^31 + 1] |
| DoubleHashing.LongsFirstRead | src/main/java/com/tomgibara/hashing/LongsHasher.java:24-76 | the first long read is the spread seed |
| DoubleHashing.Spread64 | src/main/java/com/tomgibara/hashing/LongsHasher.java:24-29 | the long spread of the seed (no contract; see `LongsFirstRead`) |
| DoubleHashing.LongsRead | src/main/java/com/tomgibara/hashing/LongsHasher.java:57-76 | the k-th long read of a cursor seeded with an int, the int counter wrapping (no contract; see `LongsReadOfSpread`, `LongsPeriod`) |
| DoubleHashing.LongsElement | src/main/java/com/tomgibara/hashing/LongsHasher.java:75 | `h ^ i * probe` in long arithmetic (no contract; see `LongsElementAtZero`, `LongsReadExact`) |
| DoubleHashing.LongsElementAtZero | src/main/java/com/tomgibara/hashing/LongsHasher.java:75 | `h ^ 0 * probe` is h |
| DoubleHashing.LongsReadOfSpread | src/main/java/com/tomgibara/hashing/LongsHasher.java:57-75 | a read is the element at the wrapped int counter |
| DoubleHashing.LongsReadExact | src/main/java/com/tomgibara/hashing/LongsHasher.java:75 | below 2^31 reads the k-th read is `h ^ (k * probe)` in long arithmetic |
| DoubleHashing.LongsPeriod | src/main/java/com/tomgibara/hashing/LongsHasher.java:57-75 | the int counter makes the long reads repeat with period 2^32 |
| DoubleHashing.LongsMultiHashCode.constructor | src/main/java/com/tomgibara/hashing/LongsHasher.java:59-63 | the cursor keeps the size and the int seed widened to a long, with the counter at 0 |
| DoubleHashing.LongsMultiHashCode.LongValue | src/main/java/com/tomgibara/hashing/LongsHasher.java:73-76 | `longValue` returns the read at the counter and advances it |
| DoubleHashing.LongsMultiHashCode.Advance | src/main/java/com/tomgibara/hashing/LongsHasher.java:75 | `i++` advances the counter by one |
| DoubleHashing.LongsMultiHashCode.IntValue | src/main/java/com/tomgibara/hashing/LongsHasher.java:65-71 | `intValue` consumes a read and succeeds exactly when it fits an int; otherwise ArithmeticException, after the counter has moved |
| DoubleHashing.LongsMultiHashCode.BigValue | src/main/java/com/tomgibara/hashing/LongsHasher.java:78-81 | `bigValue` returns the next long read |
| DoubleHashing.LongsMultiHashCode.BytesValue | src/main/java/com/tomgibara/hashing/LongsHasher.java:83-86 | `bytesValue` is eight bytes decoding to the next long read |
| DoubleHashing.IntsHash | src/main/java/com/tomgibara/hashing/IntsHasher.java:64-67 | `hash` gives a fresh cursor of the int-wide size seeded with the resized hasher's int view |
| DoubleHashing.LongsHash | src/main/java/com/tomgibara/hashing/LongsHasher.java:48-51 | `hash` gives a fresh cursor of the long-wide size seeded with the resized hasher's int view, not its long view |
| HashCodes.ViewEquals | src/main/java/com/tomgibara/hashing/AbstractHashCode.java:130-135 | `equals` is true for the object itself, false outside the interface, and otherwise holds exactly when the big views are equal |
| Results.NonNull | src/main/java/com/tomgibara/hashing/AbstractHashCode.java:109-112 | the constructors' null check (also `AdaptedMultiHash`'s, AdaptedMultiHash.java:34-37): IllegalArgumentException exactly for null, and otherwise the reference kept |
| HashCodes.CheckBigValues | src/main/java/com/tomgibara/hashing/HashValue.java:96-101 | `fromLongs(BigInteger...)` fails with IllegalArgumentException exactly when the array or one of its elements is null; otherwise the elements are kept in order |
| HashCodes.LongHashCode.IntValue | src/main/java/com/tomgibara/hashing/LongHashCode.java:41-44 | the int view is the low 32 bits of the long |
| HashCodes.LongHashCode.BytesValue | src/main/java/com/tomgibara/hashing/LongHashCode.java:56-59 | `bytesValue` is eight bytes that decode to the long |
| HashCodes.FromLong | src/main/java/com/tomgibara/hashing/LongHashCode.java:25-28 | `fromLong` and the one-argument constructor use the long-wide size, which has long capacity, and keep the long |
| HashCodes.NewLongHashCode | src/main/java/com/tomgibara/hashing/LongHashCode.java:30-34 | the sized constructor succeeds exactly for a non-null size with long capacity; the failure is IllegalArgumentException |
| HashCodes.LongHashCodeEquals | src/main/java/com/tomgibara/hashing/LongHashCode.java:61-66 | the overriding `equals` answers as the inherited big-view comparison would |
| HashCodes.BigHashCode.LongValue | src/main/java/com/tomgibara/hashing/HashCode.java:118-120 | the default long view of a big code is the value modulo 2^64 |
| HashCodes.BigHashCode.IntValue | src/main/java/com/tomgibara/hashing/HashCode.java:128-130 | the default int view of a big code is the value modulo 2^32 |
| HashCodes.BigHashCode.BytesValue | src/main/java/com/tomgibara/hashing/BigHashCode.java:41-44 | `bytesValue` fails for a negative byte count, and otherwise gives exactly that many bytes holding a non-negative value modulo 2^(8n) |
| HashCodes.NewBigHashCode | src/main/java/com/tomgibara/hashing/BigHashCode.java:30-34 | the constructor rejects a null size (in the superclass) and a null value, with IllegalArgumentException |
| HashCodes.BigHashCodeViews | src/main/java/com/tomgibara/hashing/HashCode.java:118-130 | the int view of a big code is the low half of its long view |
| HashCodes.IntHashValueEquals | src/main/java/com/tomgibara/hashing/IntHashValue.java:18-33 | an int value's long and big views equal the int, and its `equals` answers as the big-view comparison would |
| HashCodes.LongHashValue.IntValue | src/main/java/com/tomgibara/hashing/LongHashValue.java:13-18 | the checked int view succeeds exactly when the long fits an int, with that int; otherwise ArithmeticException |
| HashCodes.LongHashValue.HashCode | src/main/java/com/tomgibara/hashing/AbstractHashValue.java:5-8 | `hashCode` reads the checked int view, so it fails exactly for a long beyond int range |
| HashCodes.LongHashValueEquals | src/main/java/com/tomgibara/hashing/LongHashValue.java:30-35 | the overriding `equals` answers as the inherited big-view comparison would |
| HashCodes.LongHashValueIntIsTruncation | src/main/java/com/tomgibara/hashing/LongHashValue.java:13-18 | a successful checked int view equals the interface's truncating int view |
| HashCodes.BigHashValue.IntValue | src/main/java/com/tomgibara/hashing/BigHashValue.java:14-17 | `intValueExact` succeeds exactly within int range, with the value itself |
| HashCodes.BigHashValue.LongValue | src/main/java/com/tomgibara/hashing/BigHashValue.java:19-22 | `longValueExact` succeeds exactly within long range, with the value itself |
| HashCodes.NewBigHashValue | src/main/java/com/tomgibara/hashing/BigHashValue.java:9-12 | `fromBig` rejects null and otherwise keeps the value |
| HashCodes.BigHashValueExact | src/main/java/com/tomgibara/hashing/BigHashValue.java:14-22 | successful exact views equal the truncating defaults, and an exact int view implies an exact long view |
| HashCodes.IntsHashCode.constructor | src/main/java/com/tomgibara/hashing/IntsHashCode.java:28-31 | the unsized cursor starts at the first element with the int-wide size |
| HashCodes.IntsHashCode.WithSize | src/main/java/com/tomgibara/hashing/IntsHashCode.java:33-37 | the sized cursor starts at the first element with the given size |
| HashCodes.IntsHashCode.Next | src/main/java/com/tomgibara/hashing/IntsHashCode.java:39-64 | one read returns the element at the cursor and advances it, or fails with NoSuchElementException at the end without moving |
| HashCodes.IntsHashCode.IntValue | src/main/java/com/tomgibara/hashing/IntsHashCode.java:39-43 | `intValue` returns the next element and advances, or NoSuchElementException at the end |
| HashCodes.IntsHashCode.LongValue | src/main/java/com/tomgibara/hashing/IntsHashCode.java:45-49 | `longValue` returns the next element sign-extended and advances, or NoSuchElementException |
| HashCodes.IntsHashCode.BigValue | src/main/java/com/tomgibara/hashing/IntsHashCode.java:51-55 | `bigValue` returns the next element as a big integer and advances, or NoSuchElementException |
| HashCodes.FromInts | src/main/java/com/tomgibara/hashing/HashCode.java:70-73 | `fromInts` rejects a null array, and otherwise gives a fresh cursor at the start of that array; the failure is IllegalArgumentException |
| HashCodes.NewSizedIntsHashCode | src/main/java/com/tomgibara/hashing/IntsHashCode.java:33-37 | the sized constructor succeeds exactly for a non-null size with int capacity |
| HashCodes.DrainInts | src/main/java/com/tomgibara/hashing/IntsHashCode.java:39-64 | reading a fresh cursor to the end yields exactly the array's elements in order, after which `hasNext` is false |
| HashCodes.BigsHashCode.constructor | src/main/java/com/tomgibara/hashing/BigsHashCode.java:27-30 | the cursor starts at the first element with the given size |
| HashCodes.BigsHashCode.BigValue | src/main/java/com/tomgibara/hashing/BigsHashCode.java:32-50 | `bigValue` returns the next element and advances, or NoSuchElementException at the end |
| HashCodes.BigsHashCode.LongValue | src/main/java/com/tomgibara/hashing/HashCode.java:118-120 | the default long view of the next element: its low 64 bits |
| HashCodes.BigsHashCode.IntValue | src/main/java/com/tomgibara/hashing/HashCode.java:128-130 | the default int view of the next element: its low 32 bits |
| HashCodes.BigsHashCode.BytesValue | src/main/java/com/tomgibara/hashing/BigsHashCode.java:38-41 | `bytesValue` consumes one element and encodes it into the size's byte count |
| HashCodes.IntsHashValue.constructor | src/main/java/com/tomgibara/hashing/IntsHashValue.java:11-13 | the cursor starts at the first element |
| HashCodes.IntsHashValue.IntValue | src/main/java/com/tomgibara/hashing/IntsHashValue.java:15-19 | `intValue` returns the next element and advances, or NoSuchElementException |
| HashCodes.IntsHashValue.LongValue | src/main/java/com/tomgibara/hashing/IntsHashValue.java:21-25 | `longValue` returns the next element sign-extended and advances, or NoSuchElementException |
| HashCodes.IntsHashValue.BigValue | src/main/java/com/tomgibara/hashing/IntsHashValue.java:27-31 | `bigValue` returns the next element and advances, or NoSuchElementException |
| HashCodes.IntsHashValue.Next | src/main/java/com/tomgibara/hashing/IntsHashValue.java:38-43 | `next()` skips exactly one element and returns the same object, or NoSuchElementException |
| HashCodes.IntsHashValue.HashCode | src/main/java/com/tomgibara/hashing/AbstractHashValue.java:5-8 | `hashCode` is the int view, so it consumes one element |
| HashCodes.IntsHashValue.Equals | src/main/java/com/tomgibara/hashing/AbstractHashValue.java:10-15 | `equals` answers for itself and for non-hash-values without reading; otherwise it consumes one element and compares big views |
| HashCodes.LongsBigViewOfZero | src/main/java/com/tomgibara/hashing/LongsHashValue.java:42-45 | as written, the long 0 gets the big view 2^64, outside the unsigned range of a long |
| HashCodes.LongsBigView | src/main/java/com/tomgibara/hashing/LongsHashValue.java:42-45 | corrected big view: the unsigned reading of the long, in [0, 2^64), narrowing back to the long, equal to the source's sum for negative longs |
| HashCodes.Unsigned64Reading | src/main/java/com/tomgibara/hashing/LongsHashValue.java:44 | the unsigned reading of a long is the long itself when non-negative and 2^64 plus it otherwise |
| HashCodes.LongsHashValue.constructor | src/main/java/com/tomgibara/hashing/LongsHashValue.java:27-29 | the cursor starts at the first element |
| HashCodes.LongsHashValue.LongValue | src/main/java/com/tomgibara/hashing/LongsHashValue.java:36-54 | `longValue` returns the next element and advances, or NoSuchElementException |
| HashCodes.LongsHashValue.IntValue | src/main/java/com/tomgibara/hashing/LongsHashValue.java:31-34 | `intValue` is the low half of the next element, consuming it |
| HashCodes.LongsHashValue.BigValue | src/main/java/com/tomgibara/hashing/LongsHashValue.java:42-45 | `bigValue` is 2^64 plus the next element, consuming it: the unsigned reading for a negative long, 2^64 above it otherwise |
| HashCodes.FromLongs | src/main/java/com/tomgibara/hashing/HashValue.java:83-86 | `fromLongs` rejects a null array and otherwise gives a fresh cursor at its start; the failure is IllegalArgumentException |
| HashCodes.FromIntsValue | src/main/java/com/tomgibara/hashing/HashValue.java:70-73 | `HashValue.fromInts` rejects a null array and otherwise gives a fresh cursor at its start; the failure is IllegalArgumentException |
| Murmur.Tail | src/main/java/com/tomgibara/hashing/Murmur3IntHash.java:108-116 | the unfinished tail has length `len % 4`, below four, and follows the block-aligned prefix |
| Murmur.EmptyUnderZeroSeed | src/main/java/com/tomgibara/hashing/Murmur3IntHash.java:104-131 | MurmurHash3_x86_32 of no bytes under seed 0 is 0 |
| Murmur.EmptyUnderZeroSeedAsInt | src/main/java/com/tomgibara/hashing/Murmur3_32Hash.java:36-41 | the same as a Java int: `hashAsInt` of no bytes under the default seed 0 is 0 |
| Murmur.LoadShift | src/main/java/com/tomgibara/hashing/Murmur3IntHash.java:89 | loading a byte over a word whose top n bytes hold the tail leaves the tail plus that byte in the top n + 1 bytes |
| Murmur.ShiftOutIsShift | src/main/java/com/tomgibara/hashing/Murmur3IntHash.java:110 | the shift `k1 >>>= (4 - rem) << 3` is one of three fixed shifts, by 24, 16 or 8 bits |
| Murmur.ShiftOutIsTopBytes | src/main/java/com/tomgibara/hashing/Murmur3IntHash.java:108-110 | `len & 3` is non-zero exactly when a tail is pending, and the shift moves the tail's bytes to the bottom of the word |
| Murmur.LittleEndianSnoc | src/main/java/com/tomgibara/hashing/Murmur3IntHash.java:89-110 | reading one more tail byte little-endian places it at the next byte position |
| Murmur.BlocksPrefix | src/main/java/com/tomgibara/hashing/Murmur3IntHash.java:93-101 | only complete four-byte blocks enter the running hash |
| Murmur.TailSnoc | src/main/java/com/tomgibara/hashing/Murmur3IntHash.java:93 | appending a byte extends a short tail, or completes a block and empties the tail |
| Murmur.BlocksSnoc | src/main/java/com/tomgibara/hashing/Murmur3IntHash.java:93-101 | appending a byte leaves the running hash alone unless it completes a block, which is then mixed in |
| Murmur.CountLowBits | src/main/java/com/tomgibara/hashing/Murmur3IntHash.java:93-108 | `len & 3` of the wrapped 32-bit byte count is the tail length |
| Murmur.LoadStep | src/main/java/com/tomgibara/hashing/Murmur3IntHash.java:89 | the byte load keeps the pending tail at the top of k1; on a completed block k1 is that block, little-endian |
| Murmur.TailMixedIsFolded | src/main/java/com/tomgibara/hashing/Murmur3IntHash.java:108-116 | on a tracked state, the tail step of `hash()` gives the running hash with the tail folded in |
| Murmur.FinishIsReference | src/main/java/com/tomgibara/hashing/Murmur3IntHash.java:104-131 | on a tracked state `hash()`'s h1 is MurmurHash3_x86_32 of the bytes written under the seed |
| Murmur.WriteCompletes | src/main/java/com/tomgibara/hashing/Murmur3IntHash.java:88-102 | a byte that completes a block scrambles k1 into h1 and the state still tracks the bytes written |
| Murmur.WritePends | src/main/java/com/tomgibara/hashing/MurmurIntHash.java:72-77 | a byte that leaves a block open only loads k1 and the state still tracks the bytes written |
| Murmur.MurmurStream.constructor | src/main/java/com/tomgibara/hashing/Murmur3IntHash.java:81-85 | a new stream holds k1 = 0, h1 = seed, len = 0 and tracks the empty input under that seed |
| Murmur.MurmurStream.Blank | src/main/java/com/tomgibara/hashing/Murmur3_32Hash.java:50-54 | a `Murmur3_32Hash` stream before `reset` has every field zero |
| Murmur.MurmurStream.Reset | src/main/java/com/tomgibara/hashing/Murmur3_32Hash.java:56-59 | `reset(seed)` sets h1 and len, keeps k1, and the stream tracks the empty input under the new seed |
| Murmur.MurmurStream.WriteByte | src/main/java/com/tomgibara/hashing/Murmur3IntHash.java:88-102 | appends the byte to the input written, loads k1, mixes a completed block into h1, and keeps the stream tracking its input |
| Murmur.MurmurStream.Hash | src/main/java/com/tomgibara/hashing/Murmur3IntHash.java:104-131 | folds the pending tail, mixes in the length and finalises; on a tracking stream the result is MurmurHash3_x86_32 of the bytes written under the seed |
| Murmur.IntHashValue | src/main/java/com/tomgibara/hashing/Murmur3IntHash.java:53-56 | `intHashValue` calls `hash()`: the stream's seed, bytes and count are kept, k1 and h1 take their finalised values, and the result is the new h1, which is MurmurHash3_x86_32 of the bytes written under the seed |
| Murmur.LongHashValue | src/main/java/com/tomgibara/hashing/Murmur3IntHash.java:58-61 | `longHashValue` calls `hash()` with the same new state and returns h1 zero-extended, in [0, 2^32): the MurmurHash3 value of the bytes written read unsigned |
| Murmur.BigHashValue | src/main/java/com/tomgibara/hashing/MurmurIntHash.java:47-50 | `bigHashValue` is the long view with the same new state, so the MurmurHash3 value of the bytes written read unsigned, below 2^32 |
| Murmur.HashValue | src/main/java/com/tomgibara/hashing/MurmurIntHash.java:52-55 | `hashValue` calls `hash()` with the same new state and wraps the new h1, the MurmurHash3 value of the bytes written, in an int hash value |
| Murmur.StreamIntHash | src/main/java/com/tomgibara/hashing/Murmur3IntHash.java:48-56 | a new stream for the seed, the bytes written, then `intHashValue`, gives MurmurHash3_x86_32 of the bytes under the seed |
| Murmur.WriteAll | src/main/java/com/tomgibara/hashing/Murmur3_32Hash.java:39 | writing a byte sequence one byte at a time appends it to the tracked input |
| Murmur.HashAsInt | src/main/java/com/tomgibara/hashing/Murmur3_32Hash.java:35-41 | `hashAsInt` is MurmurHash3_x86_32 of the bytes written for the value under the seed; seed 0 and no bytes give 0 |
| Murmur.HashAsLong | src/main/java/com/tomgibara/hashing/Murmur3_32Hash.java:43-46 | `hashAsLong` is `hashAsInt` zero-extended, in [0, 2^32) |
| RandomHashes.KindMeaning | src/main/java/com/tomgibara/hashing/RandomHash.java:35-46 | `Type.from` as written: INT exactly for capacities up to 2^31, FULL_INT for 2^32, LONG_BITS for the other powers of two up to 2^63, FULL_LONG for 2^64, BIG_BITS above; LONG and BIG for non-powers below and above 2^63 |
| RandomHashes.KindOf | src/main/java/com/tomgibara/hashing/RandomHash.java:35-46 | `Type.from` as written (no contract; see `KindMeaning`) |
| RandomHashes.KindOfIntendedMeaning | src/main/java/com/tomgibara/hashing/RandomHash.java:35-46 | the corrected classification gives INT exactly below 2^31 and differs from the source only at 2^31, which it classes LONG_BITS |
| RandomHashes.ClassifiedRanges | src/main/java/com/tomgibara/hashing/RandomHash.java:35-46 | the capacity facts each kind's view relies on, under either classification |
| RandomHashes.BoundedDraw | src/main/java/com/tomgibara/hashing/RandomHash.java:93 | `nextInt(bound)` fails with IllegalArgumentException exactly for a non-positive bound, and otherwise lies in [0, bound) |
| RandomHashes.BitsDraw | src/main/java/com/tomgibara/hashing/RandomHash.java:143-146 | `new BigInteger(numBits, random)` lies in [0, 2^numBits) |
| RandomHashes.SignCleared | src/main/java/com/tomgibara/hashing/RandomHash.java:116 | `nextLong() & ~Long.MIN_VALUE` is a long in [0, 2^63) |
| RandomHashes.SignClearedIsAnd | src/main/java/com/tomgibara/hashing/RandomHash.java:116 | the bitwise AND with `Long.MAX_VALUE` is the draw modulo 2^63 |
| RandomHashes.LongResidue | src/main/java/com/tomgibara/hashing/RandomHash.java:117 | `bits % s` lies in [0, s) |
| RandomHashes.LongResidueIsJavaRem | src/main/java/com/tomgibara/hashing/RandomHash.java:117 | Java's `%` on the non-negative `bits` is the residue used |
| RandomHashes.AcceptedMeaning | src/main/java/com/tomgibara/hashing/RandomHash.java:118 | the overflow test `bits - value + (s - 1) >= 0` accepts a draw exactly when its whole block of s values lies below 2^63 |
| RandomHashes.Accepted | src/main/java/com/tomgibara/hashing/RandomHash.java:115-118 | the LONG loop's test `bits - value + (s - 1) >= 0` on the sign-cleared draw (no contract; see `AcceptedMeaning`) |
| RandomHashes.BigDrawIsMapBig | src/main/java/com/tomgibara/hashing/RandomHash.java:146 | BIG's `mapBig` of the 16-bit-wider draw is its residue modulo the capacity |
| RandomHashes.ViewsFail | src/main/java/com/tomgibara/hashing/RandomHash.java:90-149 | a view fails exactly for an INT hash of capacity 2^31, with IllegalArgumentException, and then all three views fail |
| RandomHashes.IntKindStep | src/main/java/com/tomgibara/hashing/RandomHash.java:93 | an INT hash's bound `asInt()` exists and is positive unless the capacity is 2^31; its draw is `nextInt` of that bound |
| RandomHashes.IntKindDraw | src/main/java/com/tomgibara/hashing/RandomHash.java:93 | INT's `nextInt(asInt())` fails exactly at capacity 2^31 and otherwise lies below the capacity |
| RandomHashes.IntViewOfTwoPow31 | src/main/java/com/tomgibara/hashing/RandomHash.java:36-93 | capacity 2^31 is classed INT and its int view always fails |
| RandomHashes.IntendedViewsSucceed | src/main/java/com/tomgibara/hashing/RandomHash.java:90-149 | under the corrected classification no view fails |
| RandomHashes.IntTierViews | src/main/java/com/tomgibara/hashing/RandomHash.java:90-136 | INT and FULL_INT: an INT int view lies below the capacity; the long and big views are the int read unsigned, below the capacity, and narrow back to the int |
| RandomHashes.Unsigned32Reading | src/main/java/com/tomgibara/hashing/RandomHash.java:112 | `(int) (i & 0xffffffffL)` is i |
| RandomHashes.LongTierViews | src/main/java/com/tomgibara/hashing/RandomHash.java:96-139 | LONG, LONG_BITS and FULL_LONG: no view fails, the int view narrows the long; for LONG and LONG_BITS the long lies below the capacity and the big view equals it |
| RandomHashes.LongKindViews | src/main/java/com/tomgibara/hashing/RandomHash.java:96-139 | LONG: the long is below the capacity, the big view equals it and the int view narrows it |
| RandomHashes.LongBitsKindViews | src/main/java/com/tomgibara/hashing/RandomHash.java:96-139 | LONG_BITS: the long is below the capacity, the big view equals it and the int view narrows it |
| RandomHashes.FullLongViews | src/main/java/com/tomgibara/hashing/RandomHash.java:96-141 | FULL_LONG: no view fails and the int view narrows the long |
| RandomHashes.LongKindDraw | src/main/java/com/tomgibara/hashing/RandomHash.java:113-119 | LONG returns the accepted draw, sign bit cleared, modulo the capacity, in [0, capacity) |
| RandomHashes.LongBitsDrawIsMapLong | src/main/java/com/tomgibara/hashing/RandomHash.java:120-121 | LONG_BITS's `mapLong(nextLong())` is the signed draw modulo the capacity |
| RandomHashes.FullLongBigView | src/main/java/com/tomgibara/hashing/RandomHash.java:140-141 | FULL_LONG as written: the big view is 2^64 plus the long, at or above the capacity whenever the long is non-negative |
| RandomHashes.FullLongBigViewIntended | src/main/java/com/tomgibara/hashing/RandomHash.java:140-141 | corrected FULL_LONG big view: the long read unsigned, below 2^64, narrowing back to the long |
| RandomHashes.BigTierViews | src/main/java/com/tomgibara/hashing/RandomHash.java:100-146 | BIG_BITS and BIG: the big view lies in [0, capacity) and the int and long views narrow it |
| RandomHashes.BigDrawRange | src/main/java/com/tomgibara/hashing/RandomHash.java:142-146 | the BIG_BITS and BIG draws lie below the capacity |
| RandomHashes.BigViewsWithinCapacity | src/main/java/com/tomgibara/hashing/RandomHash.java:131-149 | except FULL_LONG and the failing INT case, every big view lies in [0, capacity) |
| RandomHashes.IntendedBigViewsWithinCapacity | src/main/java/com/tomgibara/hashing/RandomHash.java:131-149 | with the corrected classification and FULL_LONG view, every big view succeeds and lies in [0, capacity) |
| RandomHashes.Prng.constructor | src/main/java/com/tomgibara/hashing/RandomHash.java:68 | a generator starts at the first value of the stream for its seed |
| RandomHashes.Prng.SetSeed | src/main/java/com/tomgibara/hashing/RandomHash.java:234 | `setSeed` restarts the values from the new seed |
| RandomHashes.Prng.NextInt | src/main/java/com/tomgibara/hashing/RandomHash.java:95 | `nextInt()` consumes one value and narrows it to an int |
| RandomHashes.Prng.NextBoundedInt | src/main/java/com/tomgibara/hashing/RandomHash.java:93 | `nextInt(bound)` consumes a value only for a positive bound, and returns the bounded draw or the failure |
| RandomHashes.Prng.NextLong | src/main/java/com/tomgibara/hashing/RandomHash.java:116-123 | `nextLong()` consumes one value and narrows it to a long |
| RandomHashes.Prng.NextBits | src/main/java/com/tomgibara/hashing/RandomHash.java:143-146 | `new BigInteger(numBits, random)` consumes one value and gives numBits random bits |
| RandomHashes.FirstAcceptedMeaning | src/main/java/com/tomgibara/hashing/RandomHash.java:115-119 | the draw the loop stops at is accepted and every draw before it was rejected |
| RandomHashes.DrawUntil | src/main/java/com/tomgibara/hashing/RandomHash.java:115-119 | the `while (true)` loop returns the first accepted long from the generator's position on, consuming exactly the draws up to it |
| RandomHashes.RandomHashCode.constructor | src/main/java/com/tomgibara/hashing/RandomHash.java:81-82 | the hash code keeps the capacity, the kind and the seeded generator |
| RandomHashes.RandomHashCode.HasNext | src/main/java/com/tomgibara/hashing/RandomHash.java:84-87 | `hasNext` is always true |
| RandomHashes.RandomHashCode.DrawNext | src/main/java/com/tomgibara/hashing/RandomHash.java:90-149 | a view draws once (LONG: until accepted) and returns the kind's draw of the last value consumed, or fails without a draw for INT at 2^31 |
| RandomHashes.Draw | src/main/java/com/tomgibara/hashing/RandomHash.java:90-149 | the value each kind draws from one generator value (no contract; see `IntTierViews`, `LongTierViews`, `BigTierViews`) |
| RandomHashes.IntOf | src/main/java/com/tomgibara/hashing/RandomHash.java:90-107 | `intValue` of a drawn value: the int itself, `(int) longValue()` or `bigValue().intValue()` (no contract) |
| RandomHashes.LongOf | src/main/java/com/tomgibara/hashing/RandomHash.java:108-130 | `longValue` of a drawn value: `intValue() & 0xffffffffL`, the long, or `bigValue().longValue()` (no contract) |
| RandomHashes.BigOf | src/main/java/com/tomgibara/hashing/RandomHash.java:131-149 | `bigValue` of a drawn value as written, FULL_LONG adding 2^64 (no contract; see `FullLongBigView`) |
| RandomHashes.BigView | src/main/java/com/tomgibara/hashing/RandomHash.java:131-149 | `bigValue` of a hash of a kind as written (no contract; see `BigViewsWithinCapacity`) |
| RandomHashes.RandomHashCode.DrawInt | src/main/java/com/tomgibara/hashing/RandomHash.java:93 | INT: `nextInt(size.asInt())` |
| RandomHashes.RandomHashCode.DrawFullInt | src/main/java/com/tomgibara/hashing/RandomHash.java:95 | FULL_INT: `nextInt()` |
| RandomHashes.RandomHashCode.DrawLong | src/main/java/com/tomgibara/hashing/RandomHash.java:113-119 | LONG: the residue of the first accepted sign-cleared long |
| RandomHashes.RandomHashCode.DrawLongBits | src/main/java/com/tomgibara/hashing/RandomHash.java:120-121 | LONG_BITS: `mapLong(nextLong())` |
| RandomHashes.RandomHashCode.DrawFullLong | src/main/java/com/tomgibara/hashing/RandomHash.java:122-123 | FULL_LONG: `nextLong()` |
| RandomHashes.RandomHashCode.DrawBigTier | src/main/java/com/tomgibara/hashing/RandomHash.java:142-146 | BIG_BITS: `bits` random bits; BIG: `mapBig` of `bits + 16` random bits |
| RandomHashes.RandomHashCode.IntValue | src/main/java/com/tomgibara/hashing/RandomHash.java:89-105 | `intValue` is the int view of the value drawn, or IllegalArgumentException without a draw |
| RandomHashes.RandomHashCode.LongValue | src/main/java/com/tomgibara/hashing/RandomHash.java:107-129 | `longValue` is the long view of the value drawn, or IllegalArgumentException without a draw |
| RandomHashes.RandomHashCode.BigValue | src/main/java/com/tomgibara/hashing/RandomHash.java:131-149 | `bigValue` is the as-written big view of the value drawn (2^64 plus the long for FULL_LONG), or IllegalArgumentException without a draw |
| RandomHashes.LongSeedingStream.constructor | src/main/java/com/tomgibara/hashing/RandomHash.java:200-205 | a seeding stream starts with seed 0 over its generator |
| RandomHashes.LongSeedingStream.WriteByte | src/main/java/com/tomgibara/hashing/RandomHash.java:207-210 | the seed becomes the byte step of the old seed, in [0, 256) |
| RandomHashes.LongSeedingStream.WriteChar | src/main/java/com/tomgibara/hashing/RandomHash.java:212-215 | the seed becomes the long step of the old seed with the char widened unsigned |
| RandomHashes.LongSeedingStream.WriteShort | src/main/java/com/tomgibara/hashing/RandomHash.java:217-220 | the seed becomes the short step of the old seed, in [0, 2^16) |
| RandomHashes.LongSeedingStream.WriteInt | src/main/java/com/tomgibara/hashing/RandomHash.java:222-225 | the seed becomes the int step of the old seed, in [0, 2^32) |
| RandomHashes.LongSeedingStream.WriteLong | src/main/java/com/tomgibara/hashing/RandomHash.java:227-230 | the seed becomes the long step of the old seed |
| RandomHashes.LongSeedingStream.GetRandom | src/main/java/com/tomgibara/hashing/RandomHash.java:232-236 | `getRandom` reseeds the generator with the condensed seed and returns it |
| RandomHashes.RandomHash.constructor | src/main/java/com/tomgibara/hashing/RandomHash.java:56-63 | the hash keeps the capacity and the kind `Type.from` picks for it, INT for capacity 2^31 |
| RandomHashes.RandomHash.GetSize | src/main/java/com/tomgibara/hashing/RandomHash.java:74-77 | `getSize` is the capacity |
| RandomHashes.RandomHash.NewStream | src/main/java/com/tomgibara/hashing/RandomHash.java:65-72 | `newStream` without an algorithm is a seeding stream over a new generator, with seed 0 |
| RandomHashes.RandomHash.Hash | src/main/java/com/tomgibara/hashing/RandomHash.java:79-82 | `hash` seeds the stream's generator with the condensed seed and returns a hash code of this capacity and kind over it |
| CondensingSteps.ByteStep | src/main/java/com/tomgibara/hashing/legacy/CondensingWriteStream.java:27 | `writeByte`'s new value is the low byte of `value * 31 + v`, in [0, 256), since `&` applies to the whole sum |
| CondensingSteps.ShortStep | src/main/java/com/tomgibara/hashing/legacy/CondensingWriteStream.java:37 | `writeShort`'s new value is the low 16 bits of `value * 31 + v`, in [0, 2^16) |
| CondensingSteps.IntStep | src/main/java/com/tomgibara/hashing/legacy/CondensingWriteStream.java:42 | `writeInt`'s new value is the low 32 bits of `value * 31 + v`, in [0, 2^32) |
| CondensingSteps.LongStep | src/main/java/com/tomgibara/hashing/legacy/CondensingWriteStream.java:31-48 | `writeLong`'s new value is `value * 31 + v` modulo 2^64; `writeChar` takes the same step on the char widened unsigned |
| CondensingSteps.ByteStepUnsigned | src/main/java/com/tomgibara/hashing/legacy/CondensingWriteStream.java:27 | corrected `writeByte`: `value * 31 + (v & 0xff)` modulo 2^64, folding the whole old value in as `writeLong` and `writeChar` do (`writeShort` and `writeInt` mask the whole sum like `writeByte`) |
| CondensingStreams.StepKeepsResidue | src/main/java/com/tomgibara/hashing/legacy/CondensingWriteStream.java:27-47 | one step of `value * 31 + v` modulo m depends on the old value only modulo m |
| CondensingStreams.ByteStepKeepsLowByte | src/main/java/com/tomgibara/hashing/legacy/CondensingWriteStream.java:27 | a byte write forgets everything of the old value except its low byte |
| CondensingStreams.ShortStepKeepsLowShort | src/main/java/com/tomgibara/hashing/legacy/CondensingWriteStream.java:37 | a short write forgets everything of the old value except its low 16 bits |
| CondensingStreams.IntStepKeepsLowInt | src/main/java/com/tomgibara/hashing/legacy/CondensingWriteStream.java:42 | an int write forgets everything of the old value except its low 32 bits |
| CondensingStreams.WrappingStepInjective | src/main/java/com/tomgibara/hashing/legacy/CondensingWriteStream.java:32-47 | the unmasked step is injective in the old value (31 is odd, so it is a bijection on longs) |
| CondensingStreams.LongStepInjective | src/main/java/com/tomgibara/hashing/legacy/CondensingWriteStream.java:47 | two different values stay different after writing the same long |
| CondensingStreams.ByteRunFromMultiple | src/main/java/com/tomgibara/hashing/legacy/CondensingWriteStream.java:27 | from a multiple of 256, writing byte v twice leaves 32 * v modulo 256 |
| CondensingStreams.ByteRunsCollide | src/main/java/com/tomgibara/hashing/legacy/CondensingWriteStream.java:27 | from a multiple of 256, any two bytes divisible by 8 written twice each condense to the same value 0 |
| CondensingStreams.ByteStepUnsignedInjective | src/main/java/com/tomgibara/hashing/legacy/CondensingWriteStream.java:27 | the corrected byte step is injective in the old value |
| CondensingStreams.ByteRunsDistinct | src/main/java/com/tomgibara/hashing/legacy/CondensingWriteStream.java:27 | under the corrected byte step the runs [8, 8] and [0, 0] condense differently from every start |
| CondensingStreams.ByteStepsAgreeWhileSmall | src/main/java/com/tomgibara/hashing/legacy/CondensingWriteStream.java:27 | while the sum fits in a byte, the written and the corrected byte steps agree |
| CondensingStreams.CondensingWriteStream.constructor | src/main/java/com/tomgibara/hashing/legacy/CondensingWriteStream.java:23 | a new stream holds 0 |
| CondensingStreams.CondensingWriteStream.WriteByte | src/main/java/com/tomgibara/hashing/legacy/CondensingWriteStream.java:26-28 | the held value becomes the byte step of the old one, in [0, 256) |
| CondensingStreams.CondensingWriteStream.WriteChar | src/main/java/com/tomgibara/hashing/legacy/CondensingWriteStream.java:31-33 | the held value becomes the long step of the old one with the char widened unsigned |
| CondensingStreams.CondensingWriteStream.WriteShort | src/main/java/com/tomgibara/hashing/legacy/CondensingWriteStream.java:36-38 | the held value becomes the short step of the old one, in [0, 2^16) |
| CondensingStreams.CondensingWriteStream.WriteInt | src/main/java/com/tomgibara/hashing/legacy/CondensingWriteStream.java:41-43 | the held value becomes the int step of the old one, in [0, 2^32) |
| CondensingStreams.CondensingWriteStream.WriteLong | src/main/java/com/tomgibara/hashing/legacy/CondensingWriteStream.java:46-48 | the held value becomes the long step of the old one |
| CondensingStreams.CondensingWriteStream.GetCondensedValue | src/main/java/com/tomgibara/hashing/legacy/CondensingWriteStream.java:50-52 | returns the held value and changes nothing |
| CondensingStreams.CondenseBytes | src/main/java/com/tomgibara/hashing/legacy/CondensingWriteStream.java:23-28 | the fold of a byte run is 0 for no bytes and in [0, 256) otherwise |
| CondensingStreams.CondenseAll | src/main/java/com/tomgibara/hashing/legacy/CondensingWriteStream.java:23-28 | a fresh stream fed a run of bytes one by one holds their fold |
| CondensingStreams.CondenseBytesLast | src/main/java/com/tomgibara/hashing/legacy/CondensingWriteStream.java:27 | runs whose folds agree modulo 256 condense identically once the same byte is appended |
| MultiHashes.NarrowedWidened | src/main/java/com/tomgibara/hashing/legacy/AbstractMultiHash.java:40-52 | copying ints into longs and back into ints returns the original ints |
| MultiHashes.BigsAsIntsExact | src/main/java/com/tomgibara/hashing/legacy/AbstractMultiHash.java:54-66 | copying ints into big integers and back into ints returns the original ints |
| MultiHashes.BigsAsIntsThroughLongs | src/main/java/com/tomgibara/hashing/legacy/AbstractMultiHash.java:61-73 | `intValue()` of a big integer equals `(int)` of its `longValue()`, element by element |
| MultiHashes.CopyIntsToLongs | src/main/java/com/tomgibara/hashing/legacy/AbstractMultiHash.java:40-45 | returns the target array; every slot of it holds the matching int sign-extended |
| MultiHashes.CopyLongsToInts | src/main/java/com/tomgibara/hashing/legacy/AbstractMultiHash.java:47-52 | returns the target array; every slot of it holds the low 32 bits of the matching long |
| MultiHashes.CopyIntsToBigs | src/main/java/com/tomgibara/hashing/legacy/AbstractMultiHash.java:54-59 | returns the target array; every slot of it holds the matching int exactly |
| MultiHashes.CopyBigsToInts | src/main/java/com/tomgibara/hashing/legacy/AbstractMultiHash.java:61-66 | returns the target array; every slot of it holds the matching big integer truncated to 32 bits |
| MultiHashes.CopyBigsToLongs | src/main/java/com/tomgibara/hashing/legacy/AbstractMultiHash.java:68-73 | returns the target array; every slot of it holds the matching big integer truncated to 64 bits |
| MultiHashes.HashInto | src/main/java/com/tomgibara/hashing/legacy/AbstractMultiHash.java:102-138 | an array whose length is not one is rejected with IllegalArgumentException and left untouched; an array of length one receives the single hash value and is returned |
| MultiHashes.HashOfMultiplicity | src/main/java/com/tomgibara/hashing/legacy/AbstractMultiHash.java:95-130 | a negative multiplicity is an IllegalArgumentException, zero gives an empty array, one gives a fresh array holding the single value, and more than one is rejected by the array overload |
| MultiHashes.MultiProbe | src/main/java/com/tomgibara/hashing/IntMultiHasher.java:66 | for a positive size the probe `1 + Math.abs(hashCode % size)` lies in [1, size] |
| MultiHashes.MultiElementAsWritten | src/main/java/com/tomgibara/hashing/IntMultiHasher.java:69 | `Math.abs(h ^ i * probe) % size` lies in [0, abs(size)) whenever the xor is not `Integer.MIN_VALUE` |
| MultiHashes.MultiElement | src/main/java/com/tomgibara/hashing/IntMultiHasher.java:69 | the corrected element `Math.abs((h ^ i * probe) % size)` always lies in [0, abs(size)) |
| MultiHashes.AbsRemCommute | src/main/java/com/tomgibara/hashing/IntMultiHasher.java:69 | away from `Integer.MIN_VALUE`, `Math.abs` and Java's truncating `%` commute |
| MultiHashes.MultiElementAgrees | src/main/java/com/tomgibara/hashing/IntMultiHasher.java:69 | wherever the element as written is in range, the corrected element equals it |
| MultiHashes.MultiElementHole | src/main/java/com/tomgibara/hashing/IntMultiHasher.java:65-69 | the hash code 723178719 spreads to `Integer.MIN_VALUE`, so with size 3 the first element as written is -2, outside [0, 3) |
| MultiHashes.MultiElements | src/main/java/com/tomgibara/hashing/IntMultiHasher.java:68-70 | the as-written double-hashing sequence has exactly as many elements as requested |
| MultiHashes.MultiElementsInRange | src/main/java/com/tomgibara/hashing/IntMultiHasher.java:62-72 | for a positive size every element of the corrected sequence lies in [0, size) |
| MultiHashes.MultiElementsAgree | src/main/java/com/tomgibara/hashing/IntMultiHasher.java:68-70 | wherever the xor is not `Integer.MIN_VALUE`, the element the source writes equals the corrected one and lies in [0, size) |
| MultiHashes.FillMultiHash | src/main/java/com/tomgibara/hashing/IntMultiHasher.java:62-72 | a zero size throws ArithmeticException before anything is written; otherwise the array is returned holding the as-written double-hashing sequence of the value's hash code, `Math.abs(h ^ i * probe) % size` |
| MultiHashes.FillMultiHashLongs | src/main/java/com/tomgibara/hashing/IntMultiHasher.java:74-77 | a zero size throws ArithmeticException with the array untouched; otherwise the long array holds the int sequence sign-extended |
| MultiHashes.FillMultiHashBigs | src/main/java/com/tomgibara/hashing/IntMultiHasher.java:79-82 | a zero size throws ArithmeticException with the array untouched; otherwise the big-integer array holds the int sequence exactly |
| MultiHashes.MultiHashOfMultiplicity | src/main/java/com/tomgibara/hashing/legacy/AbstractMultiHash.java:95-100 | negative multiplicity is an IllegalArgumentException, zero gives an empty array, and a positive multiplicity gives a fresh array holding that many elements of the double-hashing sequence (ArithmeticException for a zero size) |
| MultiHashes.NewIntegerMultiHash | src/main/java/com/tomgibara/hashing/IntegerMultiHash.java:41-48 | construction succeeds exactly for a non-null hash with the full int range and a non-negative max; the size is max + 1, wrapping to `Integer.MIN_VALUE` at `Integer.MAX_VALUE`, and never zero |
| MultiHashes.EqualMultiHashesHashAlike | src/main/java/com/tomgibara/hashing/IntegerMultiHash.java:92-105 | equal multi-hashes have equal hash codes, given that the wrapped hashes keep that contract |
| MultiHashes.MultiHashEquals | src/main/java/com/tomgibara/hashing/IntegerMultiHash.java:97-105 | `equals` of two multi-hashes: the same size and equal wrapped hashes (no contract) |
| MultiHashes.MultiHashCode | src/main/java/com/tomgibara/hashing/IntegerMultiHash.java:92-95 | `hashCode`: the wrapped hash's hash code xor the size (no contract; see `EqualMultiHashesHashAlike`) |
| MultiHashes.AdaptAll | src/main/java/com/tomgibara/hashing/AdaptedMultiHash.java:100-119 | returns the same array, with every element replaced by the adaptation of the element it held |
| MultiHashes.AdaptAllIdentity | src/main/java/com/tomgibara/hashing/AdaptedMultiHash.java:88-119 | with the base class's identity `adapt`, adapting an array leaves it unchanged |
| Reranged.NewReranging | src/main/java/com/tomgibara/hashing/RerangedHash.java:32-41 | the reranging keeps the delegate's range as the old range and the requested one as the new range, and is "smaller" exactly when the new size is strictly below the old size |
| Reranged.BigAdapt | src/main/java/com/tomgibara/hashing/LongRerangedHash.java:64-69 | big-integer adaptation: onto a smaller range it lands in [newMin, newMin + newSize) at the offset's residue modulo the size (ArithmeticException for a size that is not positive); otherwise it is the plain shift by newMin - oldMin |
| Reranged.BigAdaptOnto | src/main/java/com/tomgibara/hashing/BigRerangedHasher.java:47-52 | adaptation onto a smaller range is onto: every value of the new range is reached, from the hash at the same offset in the old range |
| Reranged.BigRerangedIntHash | src/main/java/com/tomgibara/hashing/BigRerangedHasher.java:27-30 | the int view succeeds exactly when the big adaptation does and is congruent to it modulo 2^32 |
| Reranged.BigRerangedLongHash | src/main/java/com/tomgibara/hashing/BigRerangedHasher.java:32-35 | the long view succeeds exactly when the big adaptation does and is congruent to it modulo 2^64 |
| Reranged.BigRerangedIntThroughLong | src/main/java/com/tomgibara/hashing/BigRerangedHasher.java:27-35 | the int view equals the long view narrowed to 32 bits |
| Reranged.UnsupportedAdapt | src/main/java/com/tomgibara/hashing/BigRerangedHasher.java:37-45 | the int and long `adapt` overloads of the big reranging (and the int one of the long reranging) always throw UnsupportedOperationException |
| Reranged.ModularAdapt | src/main/java/com/tomgibara/hashing/LongRerangedHash.java:57-62 | fixed-width adaptation throws ArithmeticException exactly for a smaller range with a zero size, and otherwise yields a value of the width |
| Reranged.ModularReduceExact | src/main/java/com/tomgibara/hashing/LongRerangedHasher.java:40-42 | when the offset from the old minimum does not overflow and the new range fits the width, the result is exactly Java's remainder of the offset plus the new minimum |
| Reranged.ModularReduce | src/main/java/com/tomgibara/hashing/LongRerangedHasher.java:37-43 | with no overflow, a non-negative offset lands in [newMin, newMin + newSize) at its residue modulo the size; a negative offset (a hash below the old minimum) lands in (newMin - newSize, newMin], below newMin unless the size divides it |
| Reranged.LongAdaptShift | src/main/java/com/tomgibara/hashing/LongRerangedHash.java:34-62 | when the new range is not smaller, the long view is the shift by newMin - oldMin wrapped to 64 bits and the int view its low 32 bits |
| Reranged.LongAdapt | src/main/java/com/tomgibara/hashing/LongRerangedHash.java:57-62 | `adapt(long)` with the constants read by `longValue()` (no contract; see `LongAdaptShift`, `LongAdaptSmaller`) |
| Reranged.LongRerangedIntHash | src/main/java/com/tomgibara/hashing/LongRerangedHash.java:34-37 | `(int) longHashValue`: the adapted long narrowed (no contract; see `LongAdaptShift`) |
| Reranged.LongAdaptSmaller | src/main/java/com/tomgibara/hashing/LongRerangedHasher.java:25-43 | onto a smaller range that fits a long, the long adaptation never throws and reduces the offset into the new range as `ModularReduce` states |
| Reranged.IntRerangedShift | src/main/java/com/tomgibara/hashing/IntRerangedHasher.java:25-38 | when the new range is not smaller, the int view is the shift by newMin - oldMin wrapped to 32 bits |
| Reranged.IntRerangedIntHash | src/main/java/com/tomgibara/hashing/IntRerangedHasher.java:32-38 | `intHashValue` adapted in int arithmetic (no contract; see `IntRerangedShift`, `IntRerangedSmaller`) |
| Reranged.IntRerangedLongHash | src/main/java/com/tomgibara/hashing/IntRerangedHasher.java:40-46 | `longHashValue` adapted in long arithmetic with the int constants (no contract; see `IntRerangedLongShift`, `IntRerangedLongSmaller`) |
| Reranged.IntRerangedLongShift | src/main/java/com/tomgibara/hashing/IntRerangedHasher.java:40-46 | when the new range is not smaller and both minimums fit an int, the long view is the same shift wrapped to 64 bits |
| Reranged.IntRerangedSmaller | src/main/java/com/tomgibara/hashing/IntRerangedHasher.java:32-38 | onto a smaller range that fits an int, the int view never throws and reduces the offset into the new range |
| Reranged.IntRerangedLongSmaller | src/main/java/com/tomgibara/hashing/IntRerangedHasher.java:40-46 | onto a smaller range that fits an int, the long view never throws and reduces a long offset into the new range the same way |
| Reranged.LongRerangedHashInto | src/main/java/com/tomgibara/hashing/LongRerangedHash.java:46-50 | the caller's array is returned holding the delegate's longs narrowed to ints |
| Reranged.LongRerangedHashOf | src/main/java/com/tomgibara/hashing/LongRerangedHash.java:39-44 | a fresh int array is returned holding the delegate's longs narrowed to ints |
| LegacyHashes.RangeAdjust | src/main/java/com/tomgibara/hashing/legacy/Hashes.java:57-65 | a null range or multi-hash is an IllegalArgumentException; an equal size keeps the multi-hash; otherwise the int adapter is chosen exactly when both sizes are int-bounded and int-sized, the long adapter exactly when they are long- but not int-fitting, and the big adapter otherwise |
| LegacyHashes.IntAdapterNeverThrows | src/main/java/com/tomgibara/hashing/legacy/Hashes.java:62 | whenever the int adapter is chosen, both its int and long views are free of ArithmeticException for every hash |
| LegacyHashes.LongAdapterNeverThrows | src/main/java/com/tomgibara/hashing/legacy/Hashes.java:63 | whenever the long adapter is chosen, its long view is free of ArithmeticException for every hash |
| LegacyHashes.AsMultiHash | src/main/java/com/tomgibara/hashing/legacy/Hashes.java:85-89 | a null hasher is an IllegalArgumentException; a multi-hash is returned as it is and any other hasher is wrapped in a singleton, keeping the same hasher |
| LegacyHashes.BooleanHash | src/main/java/com/tomgibara/hashing/legacy/Hashes.java:93-95 | true hashes to 1231 and false to 1237, and nothing else is produced |
| LegacyHashes.ByteHash | src/main/java/com/tomgibara/hashing/legacy/Hashes.java:97-99 | `hashCode(byte)` sign-extends: the result lies in [-128, 128), is negative exactly when the byte is, and narrows back to the byte |
| LegacyHashes.ShortHash | src/main/java/com/tomgibara/hashing/legacy/Hashes.java:101-103 | `hashCode(short)` sign-extends: the result lies in [-2^15, 2^15), is negative exactly when the short is, and keeps its low 16 bits |
| LegacyHashes.CharHash | src/main/java/com/tomgibara/hashing/legacy/Hashes.java:105-107 | `hashCode(char)` zero-extends: the result lies in [0, 2^16) and is the char's code |
| LegacyHashes.IntHash | src/main/java/com/tomgibara/hashing/legacy/Hashes.java:109-111 | `hashCode(int)` is the int (no contract; see `WidenedHashesAgree`) |
| LegacyHashes.WidenedHashesAgree | src/main/java/com/tomgibara/hashing/legacy/Hashes.java:97-111 | a byte hashes as the short and the int it widens to, a short as its int, and a char as its code |
| LegacyHashes.LongHashBits | src/main/java/com/tomgibara/hashing/legacy/Hashes.java:113-115 | the long hash code is the low word xor the high word |
| LegacyHashes.LongHash | src/main/java/com/tomgibara/hashing/legacy/Hashes.java:113-115 | `hashCode(long)` on the long's bits (no contract; see `LongHashBits`, `LongHashOfWidened`) |
| LegacyHashes.LongHashOfWidened | src/main/java/com/tomgibara/hashing/legacy/Hashes.java:113-115 | a long widened from a non-negative int hashes to that int, and one widened from a negative int hashes to its bitwise complement |
| JavaMath.JavaRem | src/main/java/com/tomgibara/hashing/LongRerangedHasher.java:41 | Java's `%`: the remainder is smaller in magnitude than the divisor, takes the sign of the dividend, and differs from the dividend by a multiple of the divisor |
| JavaMath.JavaRemNonNegative | src/main/java/com/tomgibara/hashing/HashSize.java:294 | for a non-negative dividend and a positive divisor Java's `%` is the mathematical residue |
| JavaMath.Abs32 | src/main/java/com/tomgibara/hashing/IntMultiHasher.java:66 | `Math.abs(int)` is the magnitude, except that `Integer.MIN_VALUE` is returned unchanged |
| JavaMath.Abs64 | src/main/java/com/tomgibara/hashing/LongsHasher.java:61 | `Math.abs(long)` is the magnitude, except that `Long.MIN_VALUE` is returned unchanged |

## Left out

- Message digests (`StandardHashDigest`, `StandardHashDigestSource`, `HashDigestSource`, `DigestHash`) are not part of this model. They are lookup and cloning of `java.security` providers.
- The wrappers over Java's own hashing (`JavaHasher`, `IntHasher`, `ObjectHash`) are not part of this model. They call `Object.hashCode`, `System.identityHashCode` and `Arrays.hashCode`.
- Stream plumbing and factories are not part of this model: `StandardHasher`, `SeededHasher`, `LongSeededHashSource`, `HashSource`, `HashStream`, both `LongHash` files, `Hash` and `Hashing`. Their only logic is writing the seed before the data.
- `SingletonMultiHash`, `AdaptedHashing`, `MultiHash`, `PRNGMultiHash` and `DistinctMultiHash` are pure delegation or outside the core.
- `HashRange`, `RerangedHasher`, `HashSize.getBytes`, `HashSize.mapBytes` and `isIntBounded`/`isLongBounded` are not part of this model. They appear as parameters: a byte count, a `Range` of minimum and size, and boolean flags.
- The `Choose`/`Choices` decoder used by `DistinctHasher` is not part of this model. Its result is a parameter that must satisfy `IsChoice`: k ascending values below n.
- DistinctHashing.Hash: the decoded choice is a parameter constrained only by `IsChoice`. That the choice is a function of the hash value is not stated.
- The generator behind `RandomHash` (`java.util.Random`, `SecureRandom`, `BytesSeedingStream`, algorithm and provider lookup) is an uninterpreted stream of values per seed.
  - `nextInt(bound)` is modelled as the value reduced modulo the bound.
  - `new BigInteger(bits, random)` is modelled as the value reduced modulo 2^bits.
  - Each of these consumes one value. The JDK's rejection sampling and bit layout are not modelled.
- RandomHashes.DrawUntil: the `while (true)` loop of the LONG kind requires that some later draw of the generator is accepted (`SomeAccepted`). A generator that never yields an accepted draw, on which the source loops forever, is excluded.
- `RandomHash` `hashCode`, `equals` and `toString` are not modelled, nor is `toString` anywhere else. They are formatting and identity only.
- `Hashes.hashCode(float)` and `Hashes.hashCode(double)` are not modelled. They depend on IEEE 754 bit layouts.
- `SizedHasher.hash` is not modelled: it calls back into the hasher's own value methods, which recurse through the `Hashing` defaults. The folding is modelled through the `sized*Value` hooks instead (`Hashers.SizedIntValue`, `SizedLongValue`, `SizedBigValue`).
- Hashers.SizedIntValue, Hashers.SizedLongValue, Hashers.SizedBigValue and Hashers.DrainSized read an int-array code (`IntsHashCode`) only. Codes with long or big elements read through the long and big tiers are not modelled by these hooks.
- The shared empty arrays that `AbstractMultiHash` returns for multiplicity 0 are fresh empty arrays here. Null array arguments and null array elements are not modelled, except in `HashCode.fromLongs(BigInteger...)`.
- `AdaptedMultiHash` single views are not modelled separately: `getRange`, `getMaxMultiplicity`, the single-value views and the public array methods only delegate. Likewise, `AbstractMultiHash` single views read element 0 of a one-element array (`MultiHashes.HashInto`).
- The `getRange` and `getMaxMultiplicity` constants are not modelled: `IntMultiHasher` and `IntegerMultiHash` return `Integer.MAX_VALUE`, and `IntMultiHasher` computes an `offset` that `hashAsInts` never uses.
- `IntMultiHasher` `equals` and `hashCode` are the same as those of `IntegerMultiHash`, which `MultiHashes.EqualMultiHashesHashAlike` states.
- `Murmur3IntHash.instance(0)`, the shared zero-seed instance, is not modelled. Nor are `Murmur3_32Hash`'s null check and `getSeed`. The value written for an object is a byte sequence given as a parameter.
- MultiHashes.MultiElementHole: the witness is stated on the 32 bits of the hash code, with `FromBv32` reading them as 723178719. The model does not convert that integer back to bits.
- Codecs.BigToBytes: for a negative value only the length of the result is stated. The zero bytes padded in front of a negative value's encoding are computed but not characterised.
- HashCodes.BigHashCode.BytesValue: as for `Codecs.BigToBytes`, only non-negative values have their bytes characterised, and the byte count `size.getBytes()` is a parameter.
- Reranged.ModularReduce, Reranged.LongAdaptSmaller, Reranged.IntRerangedSmaller and Reranged.IntRerangedLongSmaller give the range of the result only when the offset `h - oldMin` does not overflow. For an overflowing offset only the failure case and the width of the result are stated (`Reranged.ModularAdapt`).
- LegacyHashes.IntAdapterNeverThrows and LegacyHashes.LongAdapterNeverThrows take the range minimums as free parameters and the bounded flags as given. `HashRange` is not part of this model.

## Findings

| source | as written | input that shows it | evidently intended | confidence | as-written member | corrected member |
|---|---|---|---|---|---|---|
| src/main/java/com/tomgibara/hashing/HashSize.java:295 | the last branch of `mapInt` reduces `2^32 - value` | capacity 3 * 2^30 and value 0: `mapInt` gives 2^30, `mapLong` gives 0 | the value's residue modulo the capacity, in [0, capacity), read back as an int, as `mapLong` and `mapBig` compute (capacity 3 and value -1 give 2) | not executed | HashSizes.MapIntOfZeroNonZero | HashSizes.MapIntResidueAgrees |
| src/main/java/com/tomgibara/hashing/SizedIntHasher.java:36 | the int adapter folds with `mapInt` while its long and big views fold with `mapLong` and `mapBig` | an int-capacity hasher sized to capacity 3 reads the element -2 as 0 in its int view and as 1 in its long view | the int view is the low 32 bits of the long view, the residue modulo the capacity | not executed | Hashers.IntTierViewsDisagree | Hashers.FoldIntIntendedAgrees |
| src/main/java/com/tomgibara/hashing/HashSize.java:74 | `fromByteLength` shifts by `8 * byteLength` in int arithmetic | byte length 0x20000001: the shift distance wraps to 8, so the capacity is 256 | capacity 2^(8n) for every positive n | not executed | HashSizes.FromByteLengthOverflow | HashSizes.FromByteLengthExact |
| src/main/java/com/tomgibara/hashing/HashSize.java:99 | `fromInt` maps a negative s to 2^32 - s | `fromInt(-1)` has capacity 2^32 + 1, beyond int capacity | the unsigned reading 2^32 + s | not executed | HashSizes.FromIntOfMinusOne | HashSizes.FromIntUnsigned |
| src/main/java/com/tomgibara/hashing/HashSize.java:105 | `fromLong` maps a negative s to 2^32 - s | `fromLong(-1)` has capacity 2^32 + 1 | the unsigned reading 2^64 + s | not executed | HashSizes.FromLongOfMinusOne | HashSizes.FromLongUnsigned |
| src/main/java/com/tomgibara/hashing/LongsHashValue.java:44 | `bigValue` adds 2^64 to every long | the long 0 gives the big value 2^64 | add 2^64 only to a negative long, giving the unsigned reading | not executed | HashCodes.LongsBigViewOfZero | HashCodes.LongsBigView |
| src/main/java/com/tomgibara/hashing/RandomHash.java:141 | the FULL_LONG big view adds 2^64 to every long | a drawn long 0 gives 2^64, outside the capacity 2^64 | the long read unsigned, below 2^64 | not executed | RandomHashes.FullLongBigView | RandomHashes.FullLongBigViewIntended |
| src/main/java/com/tomgibara/hashing/RandomHash.java:36-93 | `Type.from` classes capacity 2^31 as INT, whose draw is `nextInt(asInt())` | capacity 2^31: `asInt()` is `Integer.MIN_VALUE`, so `nextInt` throws on every view | class 2^31 with the other powers of two (LONG_BITS), so every view succeeds | not executed | RandomHashes.IntViewOfTwoPow31 | RandomHashes.IntendedViewsSucceed |
| src/main/java/com/tomgibara/hashing/IntMultiHasher.java:69 | the element is `Math.abs(h ^ i * probe) % size` (also IntegerMultiHash.java:67) | hash code 723178719 spreads to `Integer.MIN_VALUE`; with size 3 the element at i = 0 is -2 | an index in [0, size), e.g. `Math.abs((h ^ i * probe) % size)` | not executed | MultiHashes.MultiElementHole | MultiHashes.MultiElementsInRange |
| src/main/java/com/tomgibara/hashing/legacy/CondensingWriteStream.java:27 | `value * 31 + v & 0xff` masks the whole sum, since `+` binds tighter than `&` (also RandomHash.java:209); `writeShort` (line 37) and `writeInt` (line 42) mask their whole sums the same way, modelled as written by `CondensingSteps.ShortStep` and `CondensingSteps.IntStep` | from 0, the byte runs [8, 8] and [0, 0] both condense to 0 | mask only the byte: `value * 31 + (v & 0xff)`, keeping the old value | not executed | CondensingStreams.ByteRunsCollide | CondensingStreams.ByteRunsDistinct |
