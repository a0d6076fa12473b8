// MurmurHash3_x86_32 (Austin Appleby's SMHasher reference) as the streaming
// state machine that `Murmur3IntHash`, `MurmurIntHash` and `Murmur3_32Hash`
// each declare as a private `MurmurStream`. The three stream bodies are the
// same statements over the same fields, so one class models all three; the
// hashes' views over it follow.
//
// The stream's words are bit-vectors; `len` is a Java int. Bytes are written
// as the eight bits of a Java `byte`.

module Murmur {
  import opened JavaMath
  import HashCodes

  const C1: bv32 := 0xcc9e_2d51
  const C2: bv32 := 0x1b87_3593

  // ---------------------------------------------------------------------------
  // The reference definition: blocks of four little-endian bytes, a tail of
  // up to three bytes, and the fmix32 finaliser over the xored-in length.

  /** The scramble applied to each block word: times c1, rotate left 15, times c2. */
  function ScrambleK(k: bv32): bv32
  {
    (k * C1).RotateLeft(15) * C2
  }

  /** A scrambled block word entering the running hash: xor, rotate left 13, times 5 plus a constant. */
  function MixScrambled(h: bv32, k: bv32): bv32
  {
    (h ^ k).RotateLeft(13) * 5 + 0xe654_6b64
  }

  /** One block's step on the running hash. */
  function MixH(h: bv32, k: bv32): bv32
  {
    MixScrambled(h, ScrambleK(k))
  }

  /** The fmix32 finaliser (shifts 16, 13, 16 and two odd multipliers). */
  function FMix(h: bv32): bv32
  {
    var a := h ^ (h >> 16);
    var b := a * 0x85eb_ca6b;
    var c := b ^ (b >> 13);
    var d := c * 0xc2b2_ae35;
    d ^ (d >> 16)
  }

  /** A byte placed at byte position i (0 the lowest) of a word: `b << 8 * i`. */
  function AtByte(b: bv8, i: nat): bv32
    requires i < 4
  {
    if i == 0 then b as bv32
    else if i == 1 then (b as bv32) << 8
    else if i == 2 then (b as bv32) << 16
    else (b as bv32) << 24
  }

  /** The top n bytes of a word moved down into the low n: `k >>> 8 * (4 - n)`. */
  function TopBytes(k: bv32, n: nat): bv32
    requires n <= 4
  {
    if n == 0 then 0
    else if n == 1 then k >> 24
    else if n == 2 then k >> 16
    else if n == 3 then k >> 8
    else k
  }

  /** Up to four bytes read little-endian into a word. */
  function LittleEndian(bs: seq<bv8>): bv32
    requires |bs| <= 4
  {
    if |bs| == 0 then 0
    else LittleEndian(bs[..|bs| - 1]) | AtByte(bs[|bs| - 1], |bs| - 1)
  }

  /** The running hash after every complete block of `data`, from the seed. */
  function Blocks(seed: bv32, data: seq<bv8>): bv32
    decreases |data|
  {
    var n := |data| - |data| % 4;
    if n == 0 then seed
    else MixH(Blocks(seed, data[..n - 4]), LittleEndian(data[n - 4..n]))
  }

  /** The bytes after the last complete block. */
  function Tail(data: seq<bv8>): (t: seq<bv8>)
    ensures |t| == |data| % 4 && |t| < 4
    ensures data == data[..|data| - |data| % 4] + t
  {
    data[|data| - |data| % 4..]
  }

  /** The running hash once the tail, if any, is scrambled into it. */
  function Folded(seed: bv32, data: seq<bv8>): bv32
  {
    FoldTail(Blocks(seed, data), Tail(data))
  }

  /** A tail of fewer than four bytes, if there is one, read little-endian, scrambled and xored into h. */
  function FoldTail(h: bv32, t: seq<bv8>): bv32
    requires |t| < 4
  {
    FoldIn(h, |t| != 0, LittleEndian(t))
  }

  /** A pending word, if there is one, scrambled and xored into h. */
  function FoldIn(h: bv32, pending: bool, w: bv32): bv32
  {
    if pending then h ^ ScrambleK(w) else h
  }

  /** A count as a 32-bit word: n modulo 2^32, counted up one at a time. */
  function Count32(n: nat): bv32
  {
    if n == 0 then 0 else Count32(n - 1) + 1
  }

  /** MurmurHash3_x86_32 of `data` under `seed`; the length enters as a 32-bit word. */
  function MurmurHash3(seed: bv32, data: seq<bv8>): bv32
  {
    Finalize(Folded(seed, data), Count32(|data|))
  }

  /** The last step: the length xored in, then the finalisation mix. */
  function Finalize(h: bv32, len: bv32): bv32
  {
    FMix(h ^ len)
  }

  /** The empty input under seed 0 hashes to 0. */
  lemma EmptyUnderZeroSeed()
    ensures MurmurHash3(0, []) == 0
  {
  }

  /** The same as a Java int, from the int seed 0. */
  lemma EmptyUnderZeroSeedAsInt()
    ensures FromBv32(MurmurHash3(ToBv32(0), [])) == 0
  {
    EmptyUnderZeroSeed();
    assert ToBv32(0) == 0;
  }

  // ---------------------------------------------------------------------------
  // How the streaming state tracks the reference definition

  /** `writeByte`'s load: the byte enters at the top of k1, the rest moves down a byte. */
  function Load(k: bv32, b: bv8): bv32
  {
    ((b as bv32) << 24) | (k >> 8)
  }

  /**
   * The tail bytes written so far sit at the top of k1: shifted down into
   * place they are the tail read little-endian. Below them k1 may hold
   * anything (the remains of the last scrambled block).
   */
  ghost predicate TailLoaded(k: bv32, data: seq<bv8>)
  {
    TopBytes(k, |Tail(data)|) == LittleEndian(Tail(data))
  }

  // The four loads as bit-vector facts, one fixed shift each.

  lemma LoadOne(k: bv32, b: bv8)
    ensures Load(k, b) >> 24 == b as bv32
  {
  }

  lemma LoadTwo(k: bv32, b: bv8)
    ensures Load(k, b) >> 16 == (k >> 24) | ((b as bv32) << 8)
  {
  }

  lemma LoadThree(k: bv32, b: bv8)
    ensures Load(k, b) >> 8 == (k >> 16) | ((b as bv32) << 16)
  {
  }

  lemma LoadFour(k: bv32, b: bv8)
    ensures Load(k, b) == (k >> 8) | ((b as bv32) << 24)
  {
  }

  /** Loading a byte over a word whose top n bytes are loaded leaves n + 1 loaded. */
  lemma LoadShift(k: bv32, b: bv8, n: nat)
    requires n < 4
    ensures TopBytes(Load(k, b), n + 1) == TopBytes(k, n) | AtByte(b, n)
  {
    if n == 0 {
      LoadOne(k, b);
    } else if n == 1 {
      LoadTwo(k, b);
    } else if n == 2 {
      LoadThree(k, b);
    } else {
      LoadFour(k, b);
    }
  }

  /** A residue 0..3 as a word. */
  function Word2(n: int): bv32
    requires 0 <= n < 4
  {
    if n == 0 then 0 else if n == 1 then 1 else if n == 2 then 2 else 3
  }

  /**
   * `hash()`'s shift `k1 >>> ((4 - rem) << 3)` for a remainder of 1, 2 or 3,
   * written as the three fixed shifts it can be (ShiftOutIsShift); with no
   * remainder nothing is pending, and the word is 0.
   */
  function ShiftOut(k: bv32, rem: bv32): bv32
  {
    if rem == 1 then k >> 24 else if rem == 2 then k >> 16 else if rem == 3 then k >> 8 else 0
  }

  /** The fixed shifts are the source's computed shift. */
  lemma ShiftOutIsShift(k: bv32, rem: bv32)
    requires 0 < rem < 4
    ensures ShiftOut(k, rem) == k >> ((4 - rem) << 3)
  {
    var d := (4 - rem) << 3;
    if rem == 1 {
      assert d == 24;
    } else if rem == 2 {
      assert d == 16;
    } else {
      assert d == 8;
    }
  }

  /** The shift moves the top rem bytes down. */
  lemma ShiftOutIsTopBytes(k: bv32, len: bv32, n: int)
    requires 0 <= n < 4 && len & 3 == Word2(n)
    ensures (len & 3 != 0) == (n != 0) && ShiftOut(k, len & 3) == TopBytes(k, n)
  {
  }

  lemma LittleEndianSnoc(t: seq<bv8>, b: bv8)
    requires |t| < 4
    ensures LittleEndian(t + [b]) == LittleEndian(t) | AtByte(b, |t|)
  {
    assert (t + [b])[..|t|] == t;
  }

  /** The complete blocks of `data` are those of its block-aligned prefix. */
  lemma AlignedPrefix(data: seq<bv8>, n: int)
    requires n == |data| - |data| % 4
    ensures |data[..n]| - |data[..n]| % 4 == n
    ensures n > 0 ==> data[..n][..n - 4] == data[..n - 4] && data[..n][n - 4..n] == data[n - 4..n]
  {
    DivModUnique(n, 4, |data| / 4, 0);
  }

  /** Only the complete blocks matter to `Blocks`. */
  lemma BlocksPrefix(seed: bv32, data: seq<bv8>)
    ensures Blocks(seed, data) == Blocks(seed, data[..|data| - |data| % 4])
  {
    AlignedPrefix(data, |data| - |data| % 4);
  }

  /** Appending a byte extends the tail, or completes a block and empties it. */
  lemma TailSnoc(data: seq<bv8>, b: bv8)
    ensures |Tail(data)| < 3 ==> Tail(data + [b]) == Tail(data) + [b]
    ensures |Tail(data)| == 3 ==> Tail(data + [b]) == [] && (data + [b])[|data| - 3..] == Tail(data) + [b]
  {
    var d := data + [b];
    var n := |data| - |data| % 4;
    if |Tail(data)| < 3 {
      assert |d| - |d| % 4 == n;
      assert d[n..] == data[n..] + [b];
    } else {
      assert |d| - |d| % 4 == |d|;
    }
  }

  /** Appending a byte either leaves the blocks alone or completes one more. */
  lemma BlocksSnoc(seed: bv32, data: seq<bv8>, b: bv8)
    ensures |Tail(data)| < 3 ==> Blocks(seed, data + [b]) == Blocks(seed, data)
    ensures |Tail(data)| == 3 ==>
      Blocks(seed, data + [b]) == MixH(Blocks(seed, data), LittleEndian(Tail(data) + [b]))
  {
    if |Tail(data)| < 3 {
      BlocksSnocPartial(seed, data, b);
    } else {
      BlocksSnocComplete(seed, data, b);
    }
  }

  lemma BlocksSnocPartial(seed: bv32, data: seq<bv8>, b: bv8)
    requires |data| % 4 < 3
    ensures Blocks(seed, data + [b]) == Blocks(seed, data)
  {
    var d := data + [b];
    var n := |data| - |data| % 4;
    assert |d| % 4 == |data| % 4 + 1 by {
      DivModUnique(|d|, 4, |data| / 4, |data| % 4 + 1);
    }
    if n > 0 {
      assert d[..n - 4] == data[..n - 4];
      assert d[n - 4..n] == data[n - 4..n];
    }
  }

  lemma BlocksSnocComplete(seed: bv32, data: seq<bv8>, b: bv8)
    requires |data| % 4 == 3
    ensures Blocks(seed, data + [b]) == MixH(Blocks(seed, data), LittleEndian(Tail(data) + [b]))
  {
    var d := data + [b];
    var n := |data| - 3;
    assert |d| % 4 == 0 by {
      DivModUnique(|d|, 4, |data| / 4 + 1, 0);
    }
    assert d[..|d| - 4] == data[..n] && d[|d| - 4..|d|] == Tail(data) + [b] by {
      assert data == data[..n] + Tail(data);
    }
    BlocksPrefix(seed, data);
    BlocksLast(seed, d);
  }

  /** Data of whole blocks mixes its last block last. */
  lemma BlocksLast(seed: bv32, data: seq<bv8>)
    requires |data| % 4 == 0 && |data| >= 4
    ensures Blocks(seed, data) == MixH(Blocks(seed, data[..|data| - 4]), LittleEndian(data[|data| - 4..|data|]))
  {
  }

  /** Incrementing a word steps its two low bits round 0, 1, 2, 3. */
  lemma IncLowBits(x: bv32)
    ensures x & 3 == 0 ==> (x + 1) & 3 == 1
    ensures x & 3 == 1 ==> (x + 1) & 3 == 2
    ensures x & 3 == 2 ==> (x + 1) & 3 == 3
    ensures x & 3 == 3 ==> (x + 1) & 3 == 0
  {
  }

  /** `len & 3` of the counted length is the length of the tail. */
  lemma {:induction false} CountLowBits(data: seq<bv8>)
    ensures Count32(|data|) & 3 == Word2(|Tail(data)|)
  {
    if data != [] {
      var d := data[..|data| - 1];
      CountLowBits(d);
      IncLowBits(Count32(|d|));
    }
  }

  /** The counter after one more byte. */
  lemma CountStep(n: nat)
    ensures Count32(n + 1) == Count32(n) + 1
  {
  }

  /** The load keeps the tail at the top of k1; completing a block loads all of it. */
  lemma LoadStep(k: bv32, data: seq<bv8>, b: bv8)
    requires TailLoaded(k, data)
    ensures |Tail(data)| < 3 ==> TailLoaded(Load(k, b), data + [b])
    ensures |Tail(data)| == 3 ==> Load(k, b) == LittleEndian(Tail(data) + [b])
  {
    var t := Tail(data);
    TailSnoc(data, b);
    LoadShift(k, b, |t|);
    LittleEndianSnoc(t, b);
  }

  /** After a completed block no tail byte is pending, whatever k1 holds. */
  lemma NothingPending(k: bv32, data: seq<bv8>)
    requires Tail(data) == []
    ensures TailLoaded(k, data)
  {
  }

  /** k1 after `hash()`: the pending tail bytes shifted down and scrambled, if there are any. */
  function FinalK(k: bv32, len: bv32): bv32
  {
    if len & 3 == 0 then k else ScrambleK(ShiftOut(k, len & 3))
  }

  /** h1 before finalisation: the pending tail, if any, folded in. */
  function TailMixed(h: bv32, k: bv32, len: bv32): bv32
  {
    FoldIn(h, len & 3 != 0, ShiftOut(k, len & 3))
  }

  /** On a stream's invariant state, folding in the pending tail gives Folded. */
  lemma TailMixedIsFolded(k: bv32, h: bv32, len: bv32, seed: bv32, data: seq<bv8>)
    requires len & 3 == Word2(|Tail(data)|) && h == Blocks(seed, data) && TailLoaded(k, data)
    ensures TailMixed(h, k, len) == Folded(seed, data)
  {
    ShiftOutIsTopBytes(k, len, |Tail(data)|);
  }

  /** Finishing the invariant state computes the reference hash. */
  lemma FinishIsReference(k: bv32, h: bv32, len: bv32, seed: bv32, data: seq<bv8>)
    requires len == Count32(|data|) && h == Blocks(seed, data) && TailLoaded(k, data)
    ensures Finalize(TailMixed(h, k, len), len) == MurmurHash3(seed, data)
  {
    CountLowBits(data);
    TailMixedIsFolded(k, h, len, seed, data);
  }

  /** k1, h1 and len are the reference definition's state after `data` under `seed`. */
  ghost predicate Tracks(k: bv32, h: bv32, len: bv32, seed: bv32, data: seq<bv8>)
  {
    len == Count32(|data|) && h == Blocks(seed, data) && TailLoaded(k, data)
  }

  /** A byte that completes a block: k1 is scrambled and mixed into h1, and the state still tracks. */
  lemma WriteCompletes(k: bv32, h: bv32, len: bv32, seed: bv32, data: seq<bv8>, b: bv8)
    requires Tracks(k, h, len, seed, data) && (len + 1) & 3 == 0
    ensures Tracks(ScrambleK(Load(k, b)), MixH(h, Load(k, b)), len + 1, seed, data + [b])
  {
    CountStep(|data|);
    CountLowBits(data + [b]);
    TailSnoc(data, b);
    LoadStep(k, data, b);
    BlocksSnoc(seed, data, b);
    NothingPending(ScrambleK(Load(k, b)), data + [b]);
  }

  /** A byte that leaves a block open: it is only loaded into k1, and the state still tracks. */
  lemma WritePends(k: bv32, h: bv32, len: bv32, seed: bv32, data: seq<bv8>, b: bv8)
    requires Tracks(k, h, len, seed, data) && (len + 1) & 3 != 0
    ensures Tracks(Load(k, b), h, len + 1, seed, data + [b])
  {
    CountStep(|data|);
    CountLowBits(data + [b]);
    TailSnoc(data, b);
    LoadStep(k, data, b);
    BlocksSnoc(seed, data, b);
  }

  // ---------------------------------------------------------------------------
  // The stream

  class MurmurStream {
    var k1: bv32
    var h1: bv32
    var len: bv32
    /** The seed the stream was started or reset with, and the bytes written since. */
    ghost var seed: bv32
    ghost var data: seq<bv8>

    /** The fields are the reference definition's state after `data`. */
    ghost predicate Valid()
      reads this
    {
      Tracks(k1, h1, len, seed, data)
    }

    /** The `Murmur3IntHash` and `MurmurIntHash` streams: k1 = 0, h1 = seed, len = 0. */
    constructor (seed: int32)
      ensures k1 == 0 && h1 == ToBv32(seed) && len == 0
      ensures this.seed == ToBv32(seed) && data == [] && Valid()
    {
      k1 := 0;
      h1 := ToBv32(seed);
      len := 0;
      this.seed := ToBv32(seed);
      data := [];
    }

    /** The `Murmur3_32Hash` stream before `reset`: every field at its default, zero. */
    constructor Blank()
      ensures k1 == 0 && h1 == 0 && len == 0
      ensures seed == 0 && data == [] && Valid()
    {
      k1 := 0;
      h1 := 0;
      len := 0;
      seed := 0;
      data := [];
    }

    /**
     * `reset(seed)`: h1 = seed and len = 0; k1 keeps whatever it held, which
     * is harmless because no tail byte is loaded yet.
     */
    method Reset(seed: int32)
      modifies this
      ensures k1 == old(k1) && h1 == ToBv32(seed) && len == 0
      ensures this.seed == ToBv32(seed) && data == [] && Valid()
    {
      h1 := ToBv32(seed);
      len := 0;
      this.seed := ToBv32(seed);
      data := [];
    }

    /**
     * `writeByte(v)`: load the byte into k1 and count it; when the count
     * reaches a multiple of four, scramble the block into h1. A stream that
     * tracked its bytes goes on tracking them.
     */
    method WriteByte(b: bv8)
      modifies this
      ensures data == old(data) + [b] && seed == old(seed) && len == old(len) + 1
      ensures len & 3 == 0 ==>
        k1 == ScrambleK(Load(old(k1), b)) && h1 == MixH(old(h1), Load(old(k1), b))
      ensures len & 3 != 0 ==> k1 == Load(old(k1), b) && h1 == old(h1)
      ensures old(Valid()) ==> Valid()
    {
      if Valid() {
        if (len + 1) & 3 == 0 {
          WriteCompletes(k1, h1, len, seed, data, b);
        } else {
          WritePends(k1, h1, len, seed, data, b);
        }
      }
      var k := Load(k1, b);
      len := len + 1;
      if len & 3 == 0 {
        k1, h1 := ScrambleK(k), MixH(h1, k);
      } else {
        k1 := k;
      }
      data := data + [b];
    }

    /**
     * `hash()`: mix a pending tail into h1, xor in the length, finalise, and
     * return h1. On a stream that tracks its bytes the result is
     * MurmurHash3_x86_32 of them. h1 and k1 keep the finalised values, so a
     * second call starts from them, not from the bytes.
     */
    method Hash() returns (r: int32)
      modifies this
      ensures data == old(data) && seed == old(seed) && len == old(len)
      ensures k1 == FinalK(old(k1), old(len))
      ensures h1 == Finalize(TailMixed(old(h1), old(k1), old(len)), old(len))
      ensures r == FromBv32(h1)
      ensures old(Valid()) ==> h1 == MurmurHash3(seed, data)
    {
      if Valid() {
        FinishIsReference(k1, h1, len, seed, data);
      }
      k1, h1 := FinalK(k1, len), Finalize(TailMixed(h1, k1, len), len);
      r := FromBv32(h1);
    }
  }

  // ---------------------------------------------------------------------------
  // The hashes' views over a stream (`Murmur3IntHash`, `MurmurIntHash`)

  /** `intHashValue(s)`: the stream's hash. */
  method IntHashValue(s: MurmurStream) returns (r: int32)
    modifies s
    ensures s.data == old(s.data) && s.seed == old(s.seed) && s.len == old(s.len)
    ensures s.k1 == FinalK(old(s.k1), old(s.len))
    ensures s.h1 == Finalize(TailMixed(old(s.h1), old(s.k1), old(s.len)), old(s.len))
    ensures r == FromBv32(s.h1)
    ensures old(s.Valid()) ==> r == FromBv32(MurmurHash3(old(s.seed), old(s.data)))
  {
    r := s.Hash();
  }

  /** `longHashValue(s)`: the hash zero-extended, `& 0xffffffffL`. */
  method LongHashValue(s: MurmurStream) returns (r: int64)
    modifies s
    ensures s.data == old(s.data) && s.seed == old(s.seed) && s.len == old(s.len)
    ensures s.k1 == FinalK(old(s.k1), old(s.len))
    ensures s.h1 == Finalize(TailMixed(old(s.h1), old(s.k1), old(s.len)), old(s.len))
    ensures r == Unsigned32(FromBv32(s.h1)) && 0 <= r < TWO_32
    ensures old(s.Valid()) ==> r == Unsigned32(FromBv32(MurmurHash3(old(s.seed), old(s.data))))
  {
    var h := s.Hash();
    r := And64(h, 0xffff_ffff);
    And64ZeroExtends(h);
    assert r == Unsigned32(h);
  }

  /** `bigHashValue(s)`: the long view as a big integer, so non-negative. */
  method BigHashValue(s: MurmurStream) returns (r: int)
    modifies s
    ensures s.data == old(s.data) && s.seed == old(s.seed) && s.len == old(s.len)
    ensures s.k1 == FinalK(old(s.k1), old(s.len))
    ensures s.h1 == Finalize(TailMixed(old(s.h1), old(s.k1), old(s.len)), old(s.len))
    ensures r == Unsigned32(FromBv32(s.h1)) && 0 <= r < TWO_32
    ensures old(s.Valid()) ==> r == Unsigned32(FromBv32(MurmurHash3(old(s.seed), old(s.data))))
  {
    r := LongHashValue(s);
  }

  /** `hashValue(s)`: the hash as an `IntHashValue`. */
  method HashValue(s: MurmurStream) returns (r: HashCodes.IntHashValue)
    modifies s
    ensures s.data == old(s.data) && s.seed == old(s.seed) && s.len == old(s.len)
    ensures s.k1 == FinalK(old(s.k1), old(s.len))
    ensures s.h1 == Finalize(TailMixed(old(s.h1), old(s.k1), old(s.len)), old(s.len))
    ensures r.value == FromBv32(s.h1)
    ensures old(s.Valid()) ==> r.value == FromBv32(MurmurHash3(old(s.seed), old(s.data)))
  {
    var h := s.Hash();
    r := HashCodes.IntHashValue(h);
  }

  // ---------------------------------------------------------------------------
  // `Murmur3_32Hash`: a fresh stream per value, reset to the seed

  lemma PrefixSnoc(front: seq<bv8>, data: seq<bv8>, i: nat)
    requires i < |data|
    ensures front + data[..i] + [data[i]] == front + data[..i + 1]
  {
    assert data[..i + 1] == data[..i] + [data[i]];
  }

  /** Writes every byte of `data`, in order. */
  method WriteAll(s: MurmurStream, data: seq<bv8>)
    requires s.Valid()
    modifies s
    ensures s.Valid() && s.seed == old(s.seed) && s.data == old(s.data) + data
  {
    var i := 0;
    while i < |data|
      invariant 0 <= i <= |data|
      invariant s.Valid() && s.seed == old(s.seed) && s.data == old(s.data) + data[..i]
    {
      s.WriteByte(data[i]);
      PrefixSnoc(old(s.data), data, i);
      i := i + 1;
    }
    assert data[..i] == data;
  }

  /**
   * `newStream()`, the bytes written, then `intHashValue(stream)` of
   * `Murmur3IntHash` and `MurmurIntHash`: MurmurHash3_x86_32 of the bytes.
   */
  method StreamIntHash(seed: int32, data: seq<bv8>) returns (r: int32)
    ensures r == FromBv32(MurmurHash3(ToBv32(seed), data))
  {
    var stream := new MurmurStream(seed);
    WriteAll(stream, data);
    assert stream.data == data;
    r := IntHashValue(stream);
  }

  /**
   * `hashAsInt(value)`, where `data` is what the source writes for the value:
   * MurmurHash3_x86_32 of those bytes under the seed; with seed 0 the empty
   * input hashes to 0.
   */
  method HashAsInt(seed: int32, data: seq<bv8>) returns (r: int32)
    ensures r == FromBv32(MurmurHash3(ToBv32(seed), data))
    ensures seed == 0 && data == [] ==> r == 0
  {
    var stream := new MurmurStream.Blank();
    stream.Reset(seed);
    WriteAll(stream, data);
    assert stream.data == data;
    r := stream.Hash();
    EmptyUnderZeroSeedAsInt();
  }

  /** `hashAsLong(value)`: the int hash zero-extended. */
  method HashAsLong(seed: int32, data: seq<bv8>) returns (r: int64)
    ensures 0 <= r < TWO_32
    ensures r == Unsigned32(FromBv32(MurmurHash3(ToBv32(seed), data)))
  {
    var h := HashAsInt(seed, data);
    And64ZeroExtends(h);
    r := And64(h, 0xffff_ffff);
  }
}
