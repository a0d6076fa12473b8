// Java's fixed-width integer semantics, stated over Dafny's unbounded integers.
//
// A Java `byte`, `int` or `long` is an `int8`, `int32` or `int64` below; the
// narrowing conversions and the wrap-around of `+`, `-` and `*` are written out
// with `Wrap8`, `Wrap32` and `Wrap64`. A `BigInteger` is a plain `int`. Code that
// only shuffles bits (the hash mixes) is modelled on `bv32`/`bv64` instead, and
// `ToBv32`/`FromBv32` (and the 64-bit pair) cross between the two views.

module Results {
  /** The exceptions the library throws, as values. */
  datatype Exception =
    | IllegalArgument
    | NoSuchElement
    | Arithmetic
    | UnsupportedOperation
    | IndexOutOfBounds

  datatype Result<T> = Ok(value: T) | Err(error: Exception)

  /** A Java reference that may be null. */
  datatype Option<T> = None | Some(value: T)

  /**
   * The constructors' null check: a null reference is an
   * IllegalArgumentException, and any other is kept as it is.
   */
  function NonNull<T>(x: Option<T>): (r: Result<T>)
    ensures r.Ok? <==> x.Some?
    ensures r.Ok? ==> r.value == x.value
    ensures r.Err? ==> r.error == IllegalArgument
  {
    if x.None? then Err(IllegalArgument) else Ok(x.value)
  }
}

module JavaMath {
  const TWO_8: int := 0x100
  const TWO_16: int := 0x1_0000
  const TWO_31: int := 0x8000_0000
  const TWO_32: int := 0x1_0000_0000
  const TWO_63: int := 0x8000_0000_0000_0000
  const TWO_64: int := 0x1_0000_0000_0000_0000

  type int8 = x: int | -0x80 <= x < 0x80
  type int16 = x: int | -0x8000 <= x < 0x8000
  /** Java's `char`: an unsigned 16-bit code unit. */
  type char16 = x: int | 0 <= x < 0x1_0000
  type int32 = x: int | -0x8000_0000 <= x < 0x8000_0000
  type int64 = x: int | -0x8000_0000_0000_0000 <= x < 0x8000_0000_0000_0000

  const INT_MIN: int32 := -0x8000_0000
  const INT_MAX: int32 := 0x7fff_ffff
  const LONG_MIN: int64 := -0x8000_0000_0000_0000
  const LONG_MAX: int64 := 0x7fff_ffff_ffff_ffff

  // ---------------------------------------------------------------------------
  // Powers of two and Euclidean division facts

  function Pow2(n: nat): (r: nat)
    ensures r >= 1
  {
    if n == 0 then 1 else 2 * Pow2(n - 1)
  }

  lemma {:induction false} Pow2Add(a: nat, b: nat)
    ensures Pow2(a + b) == Pow2(a) * Pow2(b)
  {
    if a > 0 {
      Pow2Add(a - 1, b);
      assert Pow2(a + b) == 2 * Pow2(a - 1 + b);
    }
  }

  lemma {:induction false} Pow2Monotone(a: nat, b: nat)
    requires a <= b
    ensures Pow2(a) <= Pow2(b)
  {
    if a < b {
      Pow2Monotone(a, b - 1);
    }
  }

  /** The widths the library uses, evaluated once. */
  lemma Pow2Constants()
    ensures Pow2(8) == TWO_8 && Pow2(16) == TWO_16
    ensures Pow2(31) == TWO_31 && Pow2(32) == TWO_32
    ensures Pow2(63) == TWO_63 && Pow2(64) == TWO_64
  {
    Pow2Of32();
    Pow2Of64();
  }

  /** The byte width alone, for proofs that need no other constant. */
  lemma Pow2Of8()
    ensures Pow2(8) == TWO_8
  {
    assert Pow2(2) == 4;
    Pow2Add(2, 2);
    Pow2Add(4, 4);
  }

  lemma Pow2Of32()
    ensures Pow2(8) == TWO_8 && Pow2(16) == TWO_16
    ensures Pow2(31) == TWO_31 && Pow2(32) == TWO_32
  {
    Pow2Of8();
    Pow2Add(8, 8);
    Pow2Add(16, 16);
    assert Pow2(32) == 2 * Pow2(31);
  }

  lemma Pow2Of64()
    ensures Pow2(63) == TWO_63 && Pow2(64) == TWO_64
  {
    Pow2Of32();
    Pow2Add(32, 32);
    assert Pow2(64) == 2 * Pow2(63);
  }

  lemma MulNonNegative(a: int, b: int)
    requires a >= 0 && b >= 0
    ensures a * b >= 0
  {
  }

  /** Quotient and remainder are unique: the fact every mod argument below rests on. */
  lemma DivModUnique(x: int, d: int, q: int, r: int)
    requires d > 0 && x == d * q + r && 0 <= r < d
    ensures x / d == q && x % d == r
  {
    var a, b := x / d, x % d;
    assert d * (q - a) == b - r;
    if q - a >= 1 {
      MulNonNegative(d, q - a - 1);
    } else if q - a <= -1 {
      MulNonNegative(d, a - q - 1);
    }
  }

  lemma ModAddMultiple(x: int, m: int, q: int)
    requires m > 0
    ensures (x + m * q) % m == x % m
  {
    DivModUnique(x + m * q, m, x / m + q, x % m);
  }

  /** The low bit and the remaining bits of a remainder by an even modulus. */
  lemma ModHalf(x: int, m: int)
    requires m > 0
    ensures x % (2 * m) == 2 * ((x / 2) % m) + x % 2
  {
    var q, r := x / 2, x % 2;
    var t, s := q / m, q % m;
    assert x == (2 * m) * t + (2 * s + r);
    DivModUnique(x, 2 * m, t, 2 * s + r);
  }

  /** A remainder by k * m splits into the remainder by k and the next digit base m. */
  lemma ModSplit(x: int, k: int, m: int)
    requires k > 0 && m > 0
    ensures x % (k * m) == k * ((x / k) % m) + x % k
  {
    var q, r := x / k, x % k;
    var t, s := q / m, q % m;
    assert x == (k * m) * t + (k * s + r);
    MulNonNegative(k, m - 1 - s);
    assert k * s + r < k * m by {
      assert k * (m - 1 - s) == k * m - k - k * s;
    }
    MulNonNegative(k, s);
    DivModUnique(x, k * m, t, k * s + r);
  }

  /** Reducing by a multiple of m first does not change the remainder by m. */
  lemma ModModMultiple(x: int, m: int, k: int)
    requires m > 0 && k > 0
    ensures (x % (m * k)) % m == x % m
  {
    var q := x / (m * k);
    assert x == (m * k) * q + x % (m * k);
    assert x % (m * k) == x + m * (-(k * q));
    ModAddMultiple(x, m, -(k * q));
  }

  lemma DivDiv(x: int, a: int, b: int)
    requires a > 0 && b > 0
    ensures x / a / b == x / (a * b)
  {
    var q1 := x / a;
    var q2 := q1 / b;
    assert x == a * q1 + x % a;
    assert q1 == b * q2 + q1 % b;
    assert x == (a * b) * q2 + (a * (q1 % b) + x % a);
    MulNonNegative(a, q1 % b);
    MulNonNegative(a, b - 1 - q1 % b);
    assert a * (q1 % b) + x % a < a * b by {
      assert a * (b - 1 - q1 % b) == a * b - a - a * (q1 % b);
    }
    DivModUnique(x, a * b, q2, a * (q1 % b) + x % a);
  }

  // ---------------------------------------------------------------------------
  // Two's-complement reduction

  /** The value in [-m/2, m/2) congruent to x modulo m (m = 2^width). */
  function WrapTo(x: int, m: int): (r: int)
    requires m > 0 && m % 2 == 0
    ensures -(m / 2) <= r < m / 2
    ensures r % m == x % m
  {
    var u := x % m;
    if u < m / 2 then
      DivModUnique(u, m, 0, u);
      u
    else
      DivModUnique(u - m, m, -1, u);
      u - m
  }

  lemma WrapToInRange(x: int, m: int)
    requires m > 0 && m % 2 == 0 && -(m / 2) <= x < m / 2
    ensures WrapTo(x, m) == x
  {
    if x < 0 {
      DivModUnique(x, m, -1, x + m);
    } else {
      DivModUnique(x, m, 0, x);
    }
  }

  lemma WrapToCongruent(x: int, y: int, m: int)
    requires m > 0 && m % 2 == 0 && x % m == y % m
    ensures WrapTo(x, m) == WrapTo(y, m)
  {
  }

  /** Java's `(byte)` narrowing. */
  function Wrap8(x: int): (r: int8)
    ensures r % TWO_8 == x % TWO_8
  {
    WrapTo(x, TWO_8)
  }

  /** Java's `(int)` narrowing, and the wrap-around of 32-bit `int` arithmetic. */
  function Wrap32(x: int): (r: int32)
    ensures r % TWO_32 == x % TWO_32
  {
    WrapTo(x, TWO_32)
  }

  /** Java's `(long)` narrowing, and the wrap-around of 64-bit `long` arithmetic. */
  function Wrap64(x: int): (r: int64)
    ensures r % TWO_64 == x % TWO_64
  {
    WrapTo(x, TWO_64)
  }

  lemma Wrap32Id(x: int32)
    ensures Wrap32(x) == x
  {
    WrapToInRange(x, TWO_32);
  }

  lemma Wrap64Id(x: int64)
    ensures Wrap64(x) == x
  {
    WrapToInRange(x, TWO_64);
  }

  /** Two numbers with the same remainder differ by a multiple of the modulus. */
  lemma CongruentApart(x: int, y: int, m: int)
    requires m > 0 && x % m == y % m
    ensures x == y + m * (x / m - y / m)
  {
    assert x == m * (x / m) + x % m;
    assert y == m * (y / m) + y % m;
  }

  /** Narrowing a 64-bit value to 32 bits keeps exactly its low 32 bits. */
  lemma Wrap32OfWrap64(x: int)
    ensures Wrap32(Wrap64(x)) == Wrap32(x)
  {
    var w := Wrap64(x);
    CongruentApart(x, w, TWO_64);
    var q := x / TWO_64 - w / TWO_64;
    assert x == w + TWO_32 * (TWO_32 * q);
    ModAddMultiple(w, TWO_32, TWO_32 * q);
    WrapToCongruent(w, x, TWO_32);
  }

  /** Multiplying after a 32-bit wrap is the same as wrapping the product. */
  lemma Wrap32Mul(k: int, p: int)
    ensures Wrap32(Wrap32(k) * p) == Wrap32(k * p)
  {
    var w := Wrap32(k);
    CongruentApart(k, w, TWO_32);
    var q := k / TWO_32 - w / TWO_32;
    assert k * p == w * p + TWO_32 * (q * p);
    ModAddMultiple(w * p, TWO_32, q * p);
    WrapToCongruent(w * p, k * p, TWO_32);
  }

  /** The `(int)` cast of a long gives the long back exactly when the long fits an int. */
  lemma Wrap32Fits(l: int)
    ensures (Wrap32(l) == l) <==> INT_MIN <= l <= INT_MAX
  {
    if INT_MIN <= l <= INT_MAX {
      Wrap32Id(l);
    }
  }

  /** Incrementing a wrapped counter is wrapping the incremented count. */
  lemma Wrap32Succ(c: int)
    ensures Wrap32(Wrap32(c) + 1) == Wrap32(c + 1)
  {
    var w := Wrap32(c);
    CongruentApart(c, w, TWO_32);
    ModAddMultiple(w + 1, TWO_32, c / TWO_32 - w / TWO_32);
    WrapToCongruent(w + 1, c + 1, TWO_32);
  }

  /** `x & 0xffffffffL`: the unsigned reading of an int. */
  function Unsigned32(x: int32): (r: nat)
    ensures r < TWO_32 && r % TWO_32 == x % TWO_32
  {
    x % TWO_32
  }

  /** The unsigned reading of a long. */
  function Unsigned64(x: int64): (r: nat)
    ensures r < TWO_64 && r % TWO_64 == x % TWO_64
  {
    x % TWO_64
  }

  /** `b & 0xff`: the unsigned reading of a byte. */
  function Unsigned8(b: int8): (r: nat)
    ensures r < TWO_8 && r % TWO_8 == b % TWO_8
  {
    b % TWO_8
  }

  /** An int whose unsigned reading is below 2^31 is that reading. */
  lemma Unsigned32Small(x: int32)
    requires Unsigned32(x) < TWO_31
    ensures x == Unsigned32(x)
  {
    if x >= 0 {
      DivModUnique(x, TWO_32, 0, x);
    } else {
      DivModUnique(x, TWO_32, -1, x + TWO_32);
    }
  }

  /** A long whose unsigned reading is below 2^63 is that reading. */
  lemma Unsigned64Small(x: int64)
    requires Unsigned64(x) < TWO_63
    ensures x == Unsigned64(x)
  {
    if x >= 0 {
      DivModUnique(x, TWO_64, 0, x);
    } else {
      DivModUnique(x, TWO_64, -1, x + TWO_64);
    }
  }

  /** The unsigned reading loses nothing: ints with the same reading are equal. */
  lemma Unsigned32Injective(x: int32, y: int32)
    requires Unsigned32(x) == Unsigned32(y)
    ensures x == y
  {
    CongruentApart(x, y, TWO_32);
  }

  lemma Unsigned64Injective(x: int64, y: int64)
    requires Unsigned64(x) == Unsigned64(y)
    ensures x == y
  {
    CongruentApart(x, y, TWO_64);
  }

  /** Java's `%`: the quotient truncates toward zero, so the remainder takes the dividend's sign. */
  function JavaRem(a: int, b: int): (r: int)
    requires b != 0
    ensures (if b > 0 then b else -b) > (if r >= 0 then r else -r)
    ensures a >= 0 ==> r >= 0
    ensures a <= 0 ==> r <= 0
    ensures (a - r) % (if b > 0 then b else -b) == 0
  {
    var m := if b > 0 then b else -b;
    var n := if a >= 0 then a else -a;
    assert n == m * (n / m) + n % m;
    ModAddMultiple(0, m, if a >= 0 then n / m else -(n / m));
    if a >= 0 then n % m else -(n % m)
  }

  /** For a non-negative dividend and positive divisor Java's `%` is the Euclidean remainder. */
  lemma JavaRemNonNegative(a: int, b: int)
    requires a >= 0 && b > 0
    ensures JavaRem(a, b) == a % b
  {
  }

  /** `Math.abs(int)`: `Integer.MIN_VALUE` is its own absolute value. */
  function Abs32(x: int32): (r: int32)
    ensures x != INT_MIN ==> r >= 0 && (r == x || r == -x)
    ensures x == INT_MIN ==> r == INT_MIN
  {
    if x >= 0 then x else Wrap32(-(x as int))
  }

  /** `Math.abs(long)`. */
  function Abs64(x: int64): (r: int64)
    ensures x != LONG_MIN ==> r >= 0 && (r == x || r == -x)
    ensures x == LONG_MIN ==> r == LONG_MIN
  {
    if x >= 0 then x else Wrap64(-(x as int))
  }

  // ---------------------------------------------------------------------------
  // Bitwise AND on two's-complement integers

  /**
   * The low n bits of `x & y`, read unsigned: bit i is set when bit i of both
   * x and y is set (the bits of a negative number are those of its
   * two's-complement, which Euclidean `/` and `%` by 2 expose).
   */
  function AndBits(x: int, y: int, n: nat): (r: nat)
    ensures r < Pow2(n)
    decreases n
  {
    if n == 0 then 0
    else 2 * AndBits(x / 2, y / 2, n - 1) + (if x % 2 == 1 && y % 2 == 1 then 1 else 0)
  }

  /** AND with a mask of k low one-bits keeps x modulo 2^k. */
  lemma {:induction false} AndBitsLowMask(x: int, y: int, n: nat, k: nat)
    requires k <= n && y % Pow2(n) == Pow2(k) - 1
    ensures AndBits(x, y, n) == x % Pow2(k)
    decreases n
  {
    if n > 0 {
      ModHalf(y, Pow2(n - 1));
      if k == 0 {
        AndBitsLowMask(x / 2, y / 2, n - 1, 0);
      } else {
        AndBitsLowMask(x / 2, y / 2, n - 1, k - 1);
        ModHalf(x, Pow2(k - 1));
      }
    }
  }

  /** `int & int`. */
  function And32(x: int32, y: int32): int32
  {
    Wrap32(AndBits(x, y, 32))
  }

  /** `long & long`. */
  function And64(x: int64, y: int64): int64
  {
    Wrap64(AndBits(x, y, 64))
  }

  /** `BigInteger.and` with a non-negative mask: bits above the mask are clear. */
  function BigAndMask(x: int, mask: nat): (r: nat)
    ensures r <= mask
  {
    AndBitsBelowMask(x, mask, BitLength(mask));
    AndBits(x, mask, BitLength(mask))
  }

  lemma {:induction false} AndBitsBelowMask(x: int, y: nat, n: nat)
    ensures AndBits(x, y, n) <= y
    decreases n
  {
    if n > 0 {
      AndBitsBelowMask(x / 2, y / 2, n - 1);
    }
  }

  /** An int AND with a low mask keeps the residue: `x & (2^k - 1)` modulo 2^32. */
  lemma And32LowMask(x: int32, y: int32, k: nat)
    requires k <= 32 && y % TWO_32 == Pow2(k) - 1
    ensures And32(x, y) % TWO_32 == x % Pow2(k)
  {
    Pow2Constants();
    AndBitsLowMask(x, y, 32, k);
    Pow2Monotone(k, 32);
    DivModUnique(x % Pow2(k), TWO_32, 0, x % Pow2(k));
  }

  lemma And64LowMask(x: int64, y: int64, k: nat)
    requires k <= 64 && y % TWO_64 == Pow2(k) - 1
    ensures And64(x, y) % TWO_64 == x % Pow2(k)
  {
    Pow2Constants();
    AndBitsLowMask(x, y, 64, k);
    Pow2Monotone(k, 64);
    DivModUnique(x % Pow2(k), TWO_64, 0, x % Pow2(k));
  }

  /** `x & 3` on an int is its Euclidean residue mod 4 (two's complement keeps the low bits). */
  lemma And32Mod4(x: int32)
    ensures And32(x, 3) == x % 4
  {
    Pow2Constants();
    And32LowMask(x, 3, 2);
    var r := And32(x, 3);
    assert r % TWO_32 == x % 4;
    if r < 0 {
      DivModUnique(r, TWO_32, -1, r + TWO_32);
    } else {
      DivModUnique(r, TWO_32, 0, r);
    }
  }

  /** `x & 0xffffffffL` on an int widened to long: the unsigned reading of the int. */
  lemma And64ZeroExtends(x: int32)
    ensures And64(x, 0xffff_ffff) == Unsigned32(x)
  {
    Pow2Constants();
    And64LowMask(x, 0xffff_ffff, 32);
    var r := And64(x, 0xffff_ffff);
    assert r % TWO_64 == x % TWO_32;
    if r < 0 {
      DivModUnique(r, TWO_64, -1, r + TWO_64);
    } else {
      DivModUnique(r, TWO_64, 0, r);
    }
    DivModUnique(Unsigned32(x), TWO_32, 0, Unsigned32(x));
  }

  /** A length read as a Java int keeps its residue mod 4. */
  lemma Wrap32Mod4(x: int)
    ensures Wrap32(x) % 4 == x % 4
  {
    ModModMultiple(Wrap32(x), 4, TWO_32 / 4);
    ModModMultiple(x, 4, TWO_32 / 4);
  }

  lemma BigAndLowMask(x: int, k: nat)
    ensures BigAndMask(x, Pow2(k) - 1) == x % Pow2(k)
  {
    var mask := Pow2(k) - 1;
    var n := BitLength(mask);
    BitLengthOfLowMask(k);
    DivModUnique(mask, Pow2(n), 0, mask);
    AndBitsLowMask(x, mask, n, k);
  }

  // ---------------------------------------------------------------------------
  // Bit length and bit count of non-negative integers

  /** `BigInteger.bitLength` of a non-negative value. */
  function BitLength(n: nat): nat
  {
    if n == 0 then 0 else 1 + BitLength(n / 2)
  }

  /** The bit length is the exponent of the power of two just above the value. */
  lemma {:induction false} BitLengthBounds(n: nat)
    ensures n < Pow2(BitLength(n))
    ensures BitLength(n) > 0 ==> Pow2(BitLength(n) - 1) <= n
  {
    if n > 0 {
      BitLengthBounds(n / 2);
    }
  }

  /** ... and so it is the least b with n < 2^b. */
  lemma BitLengthLeast(n: nat, b: nat)
    ensures n < Pow2(b) <==> BitLength(n) <= b
  {
    BitLengthBounds(n);
    if BitLength(n) <= b {
      Pow2Monotone(BitLength(n), b);
    } else {
      Pow2Monotone(b, BitLength(n) - 1);
    }
  }

  /** The bit length is pinned by the power of two just above the value. */
  lemma BitLengthExact(n: nat, k: nat)
    requires n < Pow2(k) && (k > 0 ==> Pow2(k - 1) <= n)
    ensures BitLength(n) == k
  {
    BitLengthLeast(n, k);
    if k > 0 {
      BitLengthLeast(n, k - 1);
    }
  }

  lemma BitLengthOfPow2(k: nat)
    ensures BitLength(Pow2(k)) == k + 1
  {
    BitLengthExact(Pow2(k), k + 1);
  }

  /** 2^k - 1 (k low one-bits) has bit length k. */
  lemma BitLengthOfLowMask(k: nat)
    ensures BitLength(Pow2(k) - 1) == k
  {
    var below := Pow2(k) - 1;
    if k > 0 {
      Pow2Monotone(k - 1, k);
      BitLengthExact(below, k);
    } else {
      BitLengthExact(below, 0);
    }
  }

  /** `BigInteger.bitLength` for either sign: negative values count the bits of their complement. */
  function SignedBitLength(x: int): nat
  {
    if x >= 0 then BitLength(x) else BitLength(-x - 1)
  }

  /** `BigInteger.bitCount` of a non-negative value: the number of one bits. */
  function BitCount(n: nat): nat
  {
    if n == 0 then 0 else n % 2 + BitCount(n / 2)
  }

  /** A positive number has exactly one set bit iff it is its own highest power of two. */
  lemma {:induction false} BitCountOne(n: nat)
    requires n >= 1
    ensures BitCount(n) == 1 <==> n == Pow2(BitLength(n) - 1)
  {
    if n > 1 {
      BitCountOne(n / 2);
      var b := BitLength(n / 2);
      assert BitLength(n) - 1 == b;
      assert b >= 1;
      assert Pow2(b) == 2 * Pow2(b - 1);
      if n % 2 == 1 {
        assert BitCount(n) >= 2 by { BitCountPositive(n / 2); }
      }
    }
  }

  lemma {:induction false} BitCountPositive(n: nat)
    requires n >= 1
    ensures BitCount(n) >= 1
  {
    if n % 2 == 0 {
      BitCountPositive(n / 2);
    }
  }

  /** `Integer.numberOfLeadingZeros`. */
  function NumberOfLeadingZeros32(x: int32): (r: nat)
    ensures r <= 32
    ensures x >= 0 ==> r == 32 - BitLength(x) && BitLength(x) <= 31
  {
    if x < 0 then 0
    else
      Pow2Constants();
      BitLengthLeast(x, 31);
      32 - BitLength(x)
  }

  /** `Long.numberOfLeadingZeros`. */
  function NumberOfLeadingZeros64(x: int64): (r: nat)
    ensures r <= 64
    ensures x >= 0 ==> r == 64 - BitLength(x) && BitLength(x) <= 63
  {
    if x < 0 then 0
    else
      Pow2Constants();
      BitLengthLeast(x, 63);
      64 - BitLength(x)
  }

  /** `Integer.highestOneBit`: the value with only the highest set bit of x. */
  function HighestOneBit32(x: int32): int32
  {
    if x < 0 then INT_MIN
    else if x == 0 then 0
    else
      BitLengthBounds(x);
      Pow2(BitLength(x) - 1)
  }

  /** `Long.highestOneBit`. */
  function HighestOneBit64(x: int64): int64
  {
    if x < 0 then LONG_MIN
    else if x == 0 then 0
    else
      BitLengthBounds(x);
      Pow2(BitLength(x) - 1)
  }

  // ---------------------------------------------------------------------------
  // Crossing between the arithmetic and the bit-vector views

  /** The bits of an int. */
  function ToBv32(x: int32): bv32
  {
    (x % TWO_32) as bv32
  }

  /** The int whose bits these are. */
  function FromBv32(b: bv32): int32
  {
    var u := b as int;
    if u < TWO_31 then u else u - TWO_32
  }

  function ToBv64(x: int64): bv64
  {
    (x % TWO_64) as bv64
  }

  function FromBv64(b: bv64): int64
  {
    var u := b as int;
    if u < TWO_63 then u else u - TWO_64
  }

  /** Java's `(long)` widening of an int's bits: sign extension. */
  function SignExtend(b: bv32): bv64
  {
    if b < 0x8000_0000 then b as bv64 else (b as bv64) | 0xffff_ffff_0000_0000
  }

  /** Java's `(int)` narrowing of a long's bits. */
  function Low32(b: bv64): bv32
  {
    (b & 0xffff_ffff) as bv32
  }

  /** The arithmetic (sign-propagating) right shift `>>` on a long. */
  function ShiftRightSigned64(b: bv64, n: nat): bv64
    requires n < 64
  {
    if b < 0x8000_0000_0000_0000 then b >> n else !((!b) >> n)
  }
}
