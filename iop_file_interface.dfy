/** The object-pool version hash: a 64-bit seed, started at the data length,
    is combined with every byte of the pool in turn (each byte first spread by
    an integer mixer), and the final seed is rendered in upper-case
    hexadecimal. */
module IopFileInterface {
  import opened Bits
  import opened UpperHex

  /** The multiplier of the integer mixer. */
  const MIX_MULTIPLIER: Usize := 0x45d9f3b

  /** The additive constant of the seed-combining step (the 32-bit golden ratio). */
  const HASH_COMBINE_CONSTANT: Usize := 0x9e3779b9

  /** `(x >> 16) ^ x` on `usize`. */
  function XorShift16(x: Usize): (r: Usize)
  {
    XorWord(Shr(x, 16), x)
  }

  /** The top 16 bits of a word pass through the xor-shift unchanged. */
  lemma XorShift16KeepsTop(x: Usize)
    ensures XorShift16(x) / Pow2(48) == x / Pow2(48)
  {
    Pow2Values();
    ShrBelow(x, 16, 48);
    XorHigh(Shr(x, 16), x, 48);
  }

  /** On a zero-extended byte the first xor-shift changes nothing. */
  lemma XorShift16OfByte(x: Usize)
    requires x < 0x100
    ensures XorShift16(x) == x
  {
    Pow2Values();
    ShrOfSmall(x, 16);
  }

  /** The xor-shift never sets a bit above the highest bit of its input. */
  lemma XorShift16Below(x: Usize, k: nat)
    requires x < Pow2(k)
    ensures XorShift16(x) < Pow2(k)
  {
    XorBelow(Shr(x, 16), x, k);
  }

  /** Neither multiplication of the mixer leaves 64 bits, so neither panics in
      a build with overflow checks: the first product is below 2^35 and the
      second below 2^62. */
  lemma MixProductsFit(b: Byte)
    ensures XorShift16(b) * MIX_MULTIPLIER < 0x8_0000_0000
    ensures XorShift16(XorShift16(b) * MIX_MULTIPLIER) * MIX_MULTIPLIER < 0x4000_0000_0000_0000
  {
    Pow2Values();
    XorShift16OfByte(b);
    XorShift16Below(XorShift16(b) * MIX_MULTIPLIER, 35);
  }

  /** When `x >> 16` is below 2^k, the xor-shift moves `x` by less than 2^k. */
  lemma XorShift16Near(x: Usize, k: nat)
    requires Shr(x, 16) < Pow2(k)
    ensures x < XorShift16(x) + Pow2(k) && XorShift16(x) < x + Pow2(k)
  {
    XorBand(Shr(x, 16), x, k);
  }

  /** The integer mixer applied to one zero-extended byte. */
  function Mix(b: Byte): (r: Usize)
    ensures r < 0x4000_0000_0000_0000
  {
    MixProductsFit(b);
    Pow2Values();
    var x1 := XorShift16(b) * MIX_MULTIPLIER;
    var x2 := XorShift16(x1) * MIX_MULTIPLIER;
    XorShift16Below(x2, 62);
    XorShift16(x2)
  }

  /** The right-hand side of `seed ^= ...` before any wrap-around: mixed byte,
      constant, the seed shifted left (high bits discarded) and right. */
  function CombineSum(seed: Usize, b: Byte): (r: nat)
  {
    Mix(b) + HASH_COMBINE_CONSTANT + WrappingShl(seed, 6) + Shr(seed, 2)
  }

  /** One pass of the loop: the three additions wrap at 2^64 one by one, then
      the sum is xored into the seed. */
  function CombineStep(seed: Usize, b: Byte): (r: Usize)
  {
    var sum := WrappingAdd(WrappingAdd(WrappingAdd(Mix(b), HASH_COMBINE_CONSTANT), WrappingShl(seed, 6)), Shr(seed, 2));
    XorWord(seed, sum)
  }

  /** Wrapping each of the three additions is the same as wrapping the whole
      sum once, and the step xors that into the seed. */
  lemma CombineStepWrapsOnce(seed: Usize, b: Byte)
    ensures CombineStep(seed, b) == Xor(seed, CombineSum(seed, b) % WORD_MODULUS)
  {
    var sum := WrappingAdd(WrappingAdd(WrappingAdd(Mix(b), HASH_COMBINE_CONSTANT), WrappingShl(seed, 6)), Shr(seed, 2));
    assert sum == CombineSum(seed, b) % WORD_MODULUS by {
      WrappingAddChain(Mix(b), HASH_COMBINE_CONSTANT, WrappingShl(seed, 6), Shr(seed, 2));
    }
    assert CombineStep(seed, b) == XorWord(seed, sum);
  }

  /** The first addition cannot overflow, but the later ones can: for some
      seed the unbounded sum reaches 2^64, so a build with overflow checks
      would panic where a release build wraps. */
  lemma CombineOverflow(b: Byte)
    ensures Mix(b) + HASH_COMBINE_CONSTANT < WORD_MODULUS
    ensures CombineSum(WORD_MODULUS - 1, b) >= WORD_MODULUS
  {
    Pow2Values();
    assert WrappingShl(WORD_MODULUS - 1, 6) == WORD_MODULUS - 64 by {
      ModUnique(WORD_MODULUS - 1, Pow2(58), 63, Pow2(58) - 1);
    }
    assert Shr(WORD_MODULUS - 1, 2) == WORD_MODULUS / 4 - 1 by {
      ShrIsDivision(WORD_MODULUS - 1, 2);
    }
  }

  /** The seed after combining `bytes`, in order, into `init`: a left fold of
      CombineStep. */
  function SeedAfter(init: Usize, bytes: seq<Byte>): (r: Usize)
  {
    if bytes == [] then init
    else CombineStep(SeedAfter(init, bytes[..|bytes| - 1]), bytes[|bytes| - 1])
  }

  /** The final seed for an object pool: the fold started at the pool's length.
      An empty pool keeps its length 0; otherwise the first byte is combined
      into the length first. */
  function HashSeed(data: seq<Byte>): (r: Usize)
    requires |data| < WORD_MODULUS
    ensures data == [] ==> r == 0
    ensures data != [] ==> r == SeedAfter(CombineStep(|data|, data[0]), data[1..])
  {
    if data == [] then SeedAfter(|data|, data)
    else
      SeedAfterFirstByte(|data|, data[0], data[1..]);
      assert [data[0]] + data[1..] == data;
      SeedAfter(|data|, data)
  }

  /** Folding over a concatenation is folding over the second part from the
      seed the first part left. */
  lemma {:induction false} SeedAfterAppend(init: Usize, a: seq<Byte>, b: seq<Byte>)
    ensures SeedAfter(init, a + b) == SeedAfter(SeedAfter(init, a), b)
    decreases |b|
  {
    if b == [] {
      assert a + b == a;
    } else {
      var ab, front, last := a + b, b[..|b| - 1], b[|b| - 1];
      assert ab[..|ab| - 1] == a + front && ab[|ab| - 1] == last;
      SeedAfterAppend(init, a, front);
      calc {
        SeedAfter(init, ab);
        CombineStep(SeedAfter(init, a + front), last);
        CombineStep(SeedAfter(SeedAfter(init, a), front), last);
        SeedAfter(SeedAfter(init, a), b);
      }
    }
  }

  /** Bounds on the mixer from the plain products: when `x >> 16` is below
      2^k1 after the first multiplication and below 2^k2 after the second,
      each xor-shift moves the value by less than that. */
  lemma MixNear(b: Byte, k1: nat, k2: nat)
    requires Shr(b * MIX_MULTIPLIER, 16) < Pow2(k1)
    requires (b * MIX_MULTIPLIER + Pow2(k1)) * MIX_MULTIPLIER <= Pow2(k2 + 16)
    ensures (b * MIX_MULTIPLIER - Pow2(k1)) * MIX_MULTIPLIER < Mix(b) + Pow2(k2)
    ensures Mix(b) < (b * MIX_MULTIPLIER + Pow2(k1)) * MIX_MULTIPLIER + Pow2(k2)
  {
    XorShift16OfByte(b);
    MixProductsFit(b);
    var x1: Usize := b * MIX_MULTIPLIER;
    XorShift16Near(x1, k1);
    var x2: Usize := XorShift16(x1) * MIX_MULTIPLIER;
    assert (x1 - Pow2(k1)) * MIX_MULTIPLIER < x2 < (x1 + Pow2(k1)) * MIX_MULTIPLIER;
    ShrBelow(x2, 16, k2);
    XorShift16Near(x2, k2);
  }

  /** The mixed bytes of 50 and 227, bounded through MixNear. */
  lemma MixOfSampleBytes()
    ensures 0x3b8_f000_0000_0000 < Mix(50) < 0x3b9_0200_0000_0000
    ensures 0x10e6_0000_0000_0000 < Mix(227)
  {
    Pow2Values();
    assert Shr(50 * MIX_MULTIPLIER, 16) < Pow2(16) by {
      ShrIsDivision(50 * MIX_MULTIPLIER, 16);
    }
    MixNear(50, 16, 42);
    assert Shr(227 * MIX_MULTIPLIER, 16) < Pow2(18) by {
      ShrIsDivision(227 * MIX_MULTIPLIER, 16);
    }
    MixNear(227, 18, 46);
  }

  /** The unbounded sum of the first pass over the pool [50, 227]: the seed
      is its length 2, so the shifts add 128 and 0, and nothing wraps. */
  lemma FirstSumOfSamplePool()
    ensures 0x3b8_f000_0000_0004 < CombineSum(2, 50) < 0x3b9_0300_0000_0000 - 4
  {
    Pow2Values();
    MixOfSampleBytes();
    assert WrappingShl(2, 6) == 128 by {
      ModUnique(2, Pow2(58), 0, 2);
    }
    assert Shr(2, 2) == 0 by {
      ShrIsDivision(2, 2);
    }
  }

  /** Combining one byte into a seed below 2^k, when the sum does not wrap,
      lands less than 2^k away from that sum. */
  lemma OneByteSeedNear(init: Usize, b: Byte, k: nat)
    requires init < Pow2(k) && CombineSum(init, b) < WORD_MODULUS
    ensures CombineSum(init, b) < SeedAfter(init, [b]) + Pow2(k)
    ensures SeedAfter(init, [b]) < CombineSum(init, b) + Pow2(k)
  {
    var sum := CombineSum(init, b);
    assert SeedAfter(init, [b]) == CombineStep(init, b) by {
      assert [b][..0] == [];
    }
    assert CombineStep(init, b) == Xor(init, sum) by {
      CombineStepWrapsOnce(init, b);
      ModUnique(sum, WORD_MODULUS, 0, sum);
    }
    XorBand(init, sum, k);
  }

  /** The seed after the first pass over the pool [50, 227]. */
  lemma FirstPassOfSamplePool()
    ensures 0x3b8_f000_0000_0000 < SeedAfter(2, [50]) < 0x3b9_0300_0000_0000
  {
    FirstSumOfSamplePool();
    Pow2Values();
    OneByteSeedNear(2, 50, 2);
  }

  /** An ordinary two-byte pool already overflows: for the pool [50, 227]
      (initial seed 2) the unbounded sum of the second pass passes 2^64, so
      a build with overflow checks panics on it. */
  lemma TwoBytePoolOverflows()
    ensures CombineSum(SeedAfter(2, [50]), 227) >= WORD_MODULUS
  {
    Pow2Values();
    MixOfSampleBytes();
    FirstPassOfSamplePool();
    var seed := SeedAfter(2, [50]);
    assert WrappingShl(seed, 6) == seed * 64 by {
      ModUnique(seed, Pow2(58), 0, seed);
    }
    assert Shr(seed, 2) == seed / 4 by {
      ShrIsDivision(seed, 2);
    }
  }

  /** The bytes are combined first to last: the first byte is combined into the
      initial seed before anything else. */
  lemma SeedAfterFirstByte(init: Usize, b: Byte, rest: seq<Byte>)
    ensures SeedAfter(init, [b] + rest) == SeedAfter(CombineStep(init, b), rest)
  {
    SeedAfterAppend(init, [b], rest);
    assert [b][..0] == [];
  }

  /** An empty object pool hashes to the seed 0 and the version string "0". */
  lemma EmptyPoolVersion()
    ensures HashSeed([]) == 0 && FormatUpperHex(HashSeed([])) == "0"
  {
  }

  /** A pool of one zero byte: length 1, mixed byte 0, so the seed is
      1 ^ (0x9e3779b9 + 64) and the version "9E3779F8". */
  lemma SingleZeroByteVersion()
    ensures HashSeed([0]) == 0x9e3779f8
    ensures FormatUpperHex(HashSeed([0])) == "9E3779F8"
  {
    Pow2Values();
    XorShift16OfByte(0);
    assert Mix(0) == 0;
    assert WrappingShl(1, 6) == 64 && Shr(1, 2) == 0;
    assert Xor(1, 0x9e3779f9) == 2 * Xor(0, 0x4f1bbcfc) + 0;
    assert CombineStep(1, 0) == 0x9e3779f8;
    assert [0][..0] == [];
    assert HashSeed([0]) == 0x9e3779f8;
    HexRenderingExample();
  }

  /** `hash_object_pool_to_version`: iterates a copy of the pool, mixes each
      byte and combines it into the seed, then renders the seed. */
  method HashObjectPoolToVersion(iopData: seq<Byte>) returns (version: string)
    requires |iopData| < WORD_MODULUS
    ensures version == FormatUpperHex(HashSeed(iopData))
    ensures IsCanonical(version) && |version| <= 16
    ensures ParseUpperHex(version) == HashSeed(iopData)
  {
    var owned := iopData;
    var seed: Usize := |owned|;
    Pow2Values();
    for i := 0 to |owned|
      invariant seed == SeedAfter(|owned|, owned[..i])
    {
      var x: Usize := owned[i];
      XorShift16OfByte(x);
      x := XorShift16(x) * MIX_MULTIPLIER;
      XorShift16Below(x, 35);
      x := XorShift16(x) * MIX_MULTIPLIER;
      XorShift16Below(x, 62);
      x := XorShift16(x);
      seed := XorWord(seed, WrappingAdd(WrappingAdd(WrappingAdd(x, HASH_COMBINE_CONSTANT), WrappingShl(seed, 6)), Shr(seed, 2)));
      assert owned[..i + 1][..i] == owned[..i];
    }
    assert owned[..|owned|] == owned;
    version := FormatUpperHex(seed);
    ParseFormat(seed);
    FormatLength(seed, 16);
  }
}
