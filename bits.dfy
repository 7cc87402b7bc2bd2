/** Unsigned machine words as the object-pool hash uses them: `u8` bytes and a
    64-bit `usize`, with the bitwise exclusive-or, the right shift and the
    discarding left shift of Rust written out on natural numbers. */
module Bits {

  /** 2^64: `usize` is taken to be 64 bits wide. */
  const WORD_MODULUS: nat := 0x1_0000_0000_0000_0000

  /** A Rust `u8`. */
  type Byte = x: nat | x < 0x100

  /** A Rust `usize` on a 64-bit target. */
  type Usize = x: nat | x < WORD_MODULUS

  function Pow2(k: nat): (r: nat)
    ensures r >= 1
  {
    if k == 0 then 1 else 2 * Pow2(k - 1)
  }

  /** Bit `i` of `n` (bit 0 is the least significant). */
  predicate Bit(n: nat, i: nat)
  {
    if i == 0 then n % 2 == 1 else Bit(n / 2, i - 1)
  }

  /** Bitwise exclusive-or of two non-negative integers (Rust's `^`). */
  function Xor(a: nat, b: nat): (r: nat)
    decreases a
  {
    if a == 0 then b
    else if b == 0 then a
    else 2 * Xor(a / 2, b / 2) + (if a % 2 == b % 2 then 0 else 1)
  }

  /** Xor is the bitwise exclusive-or: each bit of the result is set exactly
      when the operands differ in that bit. */
  lemma {:induction false} XorBit(a: nat, b: nat, i: nat)
    ensures Bit(Xor(a, b), i) <==> (Bit(a, i) != Bit(b, i))
    decreases i
  {
    if a == 0 {
      ZeroHasNoBits(i);
    } else if b == 0 {
      ZeroHasNoBits(i);
    } else if i > 0 {
      XorBit(a / 2, b / 2, i - 1);
    }
  }

  lemma {:induction false} ZeroHasNoBits(i: nat)
    ensures !Bit(0, i)
  {
    if i > 0 {
      ZeroHasNoBits(i - 1);
    }
  }

  /** Xor of two values below 2^k stays below 2^k: it never carries. */
  lemma {:induction false} XorBelow(a: nat, b: nat, k: nat)
    requires a < Pow2(k) && b < Pow2(k)
    ensures Xor(a, b) < Pow2(k)
  {
    if a != 0 && b != 0 {
      assert k > 0;
      XorBelow(a / 2, b / 2, k - 1);
    }
  }

  /** Xor with a fixed operand undoes itself. */
  lemma {:induction false} XorCancels(a: nat, b: nat)
    ensures Xor(Xor(a, b), b) == a
    decreases a + b
  {
    if a == 0 {
      XorSelf(b);
    } else if b == 0 {
    } else {
      XorCancels(a / 2, b / 2);
      var x := Xor(a / 2, b / 2);
      var lo := if a % 2 == b % 2 then 0 else 1;
      assert Xor(a, b) == 2 * x + lo;
      if 2 * x + lo == 0 {
        assert x == 0 && a / 2 == b / 2 && a % 2 == b % 2;
      } else {
        assert (2 * x + lo) / 2 == x && (2 * x + lo) % 2 == lo;
      }
    }
  }

  /** The operands of xor may be swapped. */
  lemma {:induction false} XorCommutes(a: nat, b: nat)
    ensures Xor(a, b) == Xor(b, a)
    decreases a + b
  {
    if a != 0 && b != 0 {
      XorCommutes(a / 2, b / 2);
    }
  }

  /** Xor with a value below 2^k leaves every bit from k upwards unchanged. */
  lemma {:induction false} XorHigh(a: nat, b: nat, k: nat)
    requires a < Pow2(k)
    ensures Xor(a, b) / Pow2(k) == b / Pow2(k)
  {
    if a == 0 {
    } else if b == 0 {
      DivUnique(a, Pow2(k), 0, a);
      DivUnique(0, Pow2(k), 0, 0);
    } else {
      var d := Pow2(k - 1);
      assert Pow2(k) == 2 * d;
      var x := Xor(a / 2, b / 2);
      var n := Xor(a, b);
      assert a / 2 < d by {
        DivUnique(a, 2, a / 2, a % 2);
      }
      XorHigh(a / 2, b / 2, k - 1);
      assert n / 2 == x;
      assert n / Pow2(k) == n / 2 / d by {
        HalveThenDivide(n, d);
      }
      assert b / 2 / d == b / Pow2(k) by {
        HalveThenDivide(b, d);
      }
    }
  }

  /** So xor with a value below 2^k moves `b` by less than 2^k either way. */
  lemma XorBand(a: nat, b: nat, k: nat)
    requires a < Pow2(k)
    ensures b < Xor(a, b) + Pow2(k) && Xor(a, b) < b + Pow2(k)
  {
    XorHigh(a, b, k);
    SameQuotientNear(Xor(a, b), b, Pow2(k));
  }

  /** Two numbers with the same quotient by `p` are less than `p` apart. */
  lemma SameQuotientNear(m: nat, n: nat, p: nat)
    requires p > 0 && m / p == n / p
    ensures n < m + p && m < n + p
  {
    var q := m / p;
    assert m == p * q + m % p && n == p * q + n % p;
  }

  lemma {:induction false} XorSelf(a: nat)
    ensures Xor(a, a) == 0
  {
    if a != 0 {
      XorSelf(a / 2);
    }
  }

  lemma {:induction false} Pow2Add(a: nat, b: nat)
    ensures Pow2(a + b) == Pow2(a) * Pow2(b)
  {
    if a > 0 {
      Pow2Add(a - 1, b);
    }
  }

  /** The powers of two the hash's bounds are stated with. */
  lemma Pow2Values()
    ensures Pow2(2) == 4 && Pow2(6) == 64
    ensures Pow2(8) == 0x100 && Pow2(16) == 0x1_0000
    ensures Pow2(18) == 0x4_0000 && Pow2(35) == 0x8_0000_0000
    ensures Pow2(42) == 0x400_0000_0000 && Pow2(46) == 0x4000_0000_0000
    ensures Pow2(58) == 0x400_0000_0000_0000 && Pow2(62) == 0x4000_0000_0000_0000
    ensures Pow2(64) == WORD_MODULUS
  {
    assert Pow2(4) == 16;
    Pow2Add(4, 4);
    Pow2Add(8, 8);
    Pow2Add(16, 16);
    Pow2Add(32, 32);
    Pow2Add(32, 3);
    Pow2Add(32, 30);
    Pow2Add(16, 14);
    Pow2Add(8, 6);
    Pow2Add(16, 2);
    Pow2Add(32, 10);
    Pow2Add(32, 14);
    Pow2Add(8, 2);
    Pow2Add(16, 42);
    assert Pow2(6) == 64;
  }

  /** `a ^ b` on `usize`: a word again, and xoring `b` once more gives `a` back. */
  function XorWord(a: Usize, b: Usize): (r: Usize)
    ensures Xor(r, b) == a
  {
    Pow2Values();
    XorBelow(a, b, 64);
    XorCancels(a, b);
    Xor(a, b)
  }

  /** `a >> k` on an unsigned word: the low `k` bits are dropped. */
  function Shr(a: Usize, k: nat): (r: Usize)
    requires k < 64
    ensures r <= a
  {
    if k == 0 then a else Shr(a / 2, k - 1)
  }

  /** The shift is division by 2^k, rounded down. */
  lemma {:induction false} ShrIsDivision(a: Usize, k: nat)
    requires k < 64
    ensures Shr(a, k) == a / Pow2(k)
  {
    if k > 0 {
      ShrIsDivision(a / 2, k - 1);
      HalveThenDivide(a, Pow2(k - 1));
    }
  }

  /** A value below 2^(n+k) shifted right by k is below 2^n. */
  lemma {:induction false} ShrBelow(a: Usize, k: nat, n: nat)
    requires k < 64 && a < Pow2(n + k)
    ensures Shr(a, k) < Pow2(n)
  {
    if k > 0 {
      assert Pow2(n + k) == 2 * Pow2(n + (k - 1));
      ShrBelow(a / 2, k - 1, n);
    }
  }

  lemma HalveThenDivide(a: nat, d: nat)
    requires d >= 1
    ensures a / 2 / d == a / (2 * d)
  {
    var q, r := a / (2 * d), a % (2 * d);
    assert a == (2 * d) * q + r && r < 2 * d;
    assert a == 2 * (d * q + r / 2) + r % 2;
    DivUnique(a, 2, d * q + r / 2, r % 2);
    DivUnique(d * q + r / 2, d, q, r / 2);
  }

  /** Division is determined by quotient and remainder. */
  lemma DivUnique(a: int, d: int, q: int, r: int)
    requires d > 0 && 0 <= r < d && a == d * q + r
    ensures a / d == q
  {
    var q' := a / d;
    assert a == d * q' + a % d;
    if q' < q {
      MulMonotone(d, q' + 1, q);
      assert false;
    } else if q < q' {
      MulMonotone(d, q + 1, q');
      assert false;
    }
  }

  lemma MulMonotone(d: int, x: int, y: int)
    requires d > 0 && x <= y
    ensures d * x <= d * y
  {
    assert d * y == d * x + d * (y - x);
  }

  /** Shifting right by at least the width of the value leaves nothing. */
  lemma {:induction false} ShrOfSmall(a: Usize, k: nat)
    requires k < 64 && a < Pow2(k)
    ensures Shr(a, k) == 0
  {
    if k > 0 {
      ShrOfSmall(a / 2, k - 1);
    }
  }

  /** `a << k` on `usize` for `k < 64`: the bits shifted past bit 63 are
      discarded, which Rust does without a panic. The result is the low
      `64 - k` bits of `a`, moved up by `k`. */
  function WrappingShl(a: Usize, k: nat): (r: Usize)
    requires k < 64
    ensures r == (a % Pow2(64 - k)) * Pow2(k)
  {
    ShlKeepsLowBits(a, k);
    (a * Pow2(k)) % WORD_MODULUS
  }

  lemma ShlKeepsLowBits(a: nat, k: nat)
    requires k < 64
    ensures (a * Pow2(k)) % WORD_MODULUS == (a % Pow2(64 - k)) * Pow2(k)
  {
    Pow2Values();
    Pow2Add(64 - k, k);
    MulModSplit(a, Pow2(64 - k), Pow2(k));
  }

  /** Multiplying by `p` commutes with taking the remainder, scaled by `p`. */
  lemma MulModSplit(a: nat, d: nat, p: nat)
    requires d > 0 && p > 0
    ensures (a * p) % (d * p) == (a % d) * p
  {
    var low, high := a % d, a / d;
    assert a * p == (d * p) * high + low * p by {
      assert a == d * high + low;
      Distribute(d, high, low, p);
    }
    assert low * p < d * p by {
      MulMonotone(p, low + 1, d);
      Distribute(1, low, 1, p);
    }
    ModUnique(a * p, d * p, high, low * p);
  }

  lemma Distribute(x: int, y: int, z: int, p: int)
    ensures (x * y + z) * p == (x * p) * y + z * p
  {
  }

  /** The remainder is determined by quotient and remainder. */
  lemma ModUnique(a: int, d: int, q: int, r: int)
    requires d > 0 && 0 <= r < d && a == d * q + r
    ensures a % d == r
  {
    DivUnique(a, d, q, r);
  }

  /** Reducing a summand modulo 2^64 first does not change the sum modulo 2^64. */
  lemma ModAddLeft(x: nat, y: nat)
    ensures (x % WORD_MODULUS + y) % WORD_MODULUS == (x + y) % WORD_MODULUS
  {
    var q := x / WORD_MODULUS;
    var z := x % WORD_MODULUS + y;
    assert x + y == q * WORD_MODULUS + z;
    assert (q * WORD_MODULUS + z) % WORD_MODULUS == z % WORD_MODULUS;
  }

  /** Chained wrapping additions whose first one cannot overflow wrap the
      whole sum once. */
  lemma WrappingAddChain(a: Usize, b: Usize, c: Usize, d: Usize)
    requires a + b < WORD_MODULUS
    ensures WrappingAdd(WrappingAdd(WrappingAdd(a, b), c), d) == (a + b + c + d) % WORD_MODULUS
  {
    assert WrappingAdd(a, b) == a + b;
    ModAddLeft(a + b + c, d);
  }

  /** `a + b` on `usize` in a build that wraps on overflow: the exact sum when
      it fits, otherwise the sum less 2^64, and the result is smaller than `a`
      exactly when the addition carried out of bit 63. */
  function WrappingAdd(a: Usize, b: Usize): (r: Usize)
    ensures a + b < WORD_MODULUS ==> r == a + b
    ensures a + b >= WORD_MODULUS ==> r == a + b - WORD_MODULUS
    ensures r < a <==> a + b >= WORD_MODULUS
  {
    (a + b) % WORD_MODULUS
  }
}
