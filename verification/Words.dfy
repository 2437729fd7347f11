/**
 * Machine words as natural numbers: powers of two, shifts, masks and the bitwise operators.
 * Everything is defined bit by bit, so that proofs stay linear.
 */
module Words {

  type Byte = b: nat | b < 256

  const U32_SIZE: nat := 0x1_0000_0000
  const U32_MAX: nat := 0xffff_ffff

  function Pow2(n: nat): (r: nat)
    ensures r >= 1
  {
    if n == 0 then 1 else 2 * Pow2(n - 1)
  }

  /** `x * 2^k`: a left shift in a word that is wide enough. */
  function Shl(x: nat, k: nat): nat {
    if k == 0 then x else 2 * Shl(x, k - 1)
  }

  /** `x << k` on a 32-bit word: the bits that leave the word are lost. */
  function Shl32(x: nat, k: nat): (r: nat)
    ensures r < U32_SIZE
  {
    Shl(x, k) % U32_SIZE
  }

  /** `x >> k`. */
  function Shr(x: nat, k: nat): nat {
    if k == 0 then x else Shr(x / 2, k - 1)
  }

  /** The low k bits of x, that is `x mod 2^k`. */
  function Low(x: nat, k: nat): (r: nat)
    ensures r < Pow2(k)
  {
    if k == 0 then 0 else 2 * Low(x / 2, k - 1) + x % 2
  }

  /** A little-endian 16-bit word. */
  function Word16(low: Byte, high: Byte): (r: nat)
    ensures r < 0x1_0000
  {
    var x: nat, y: nat := low, high;
    x + 256 * y
  }

  /** `!x` on a 32-bit word. */
  function Not32(x: nat): nat
    requires x < U32_SIZE
  {
    U32_MAX - x
  }

  function BitOr(x: nat, y: nat): nat {
    if x == 0 && y == 0 then 0
    else 2 * BitOr(x / 2, y / 2) + if x % 2 == 1 || y % 2 == 1 then 1 else 0
  }

  function BitAnd(x: nat, y: nat): nat {
    if x == 0 || y == 0 then 0
    else 2 * BitAnd(x / 2, y / 2) + if x % 2 == 1 && y % 2 == 1 then 1 else 0
  }

  function BitXor(x: nat, y: nat): nat {
    if x == 0 && y == 0 then 0
    else 2 * BitXor(x / 2, y / 2) + if x % 2 != y % 2 then 1 else 0
  }

  lemma {:induction false} ShlAdd(x: nat, y: nat, k: nat)
    ensures Shl(x + y, k) == Shl(x, k) + Shl(y, k)
  {
    if k > 0 { ShlAdd(x, y, k - 1); }
  }

  lemma {:induction false} ShlShl(x: nat, a: nat, b: nat)
    ensures Shl(Shl(x, a), b) == Shl(x, a + b)
  {
    if b > 0 { ShlShl(x, a, b - 1); }
  }

  lemma {:induction false} ShlMonotone(x: nat, y: nat, k: nat)
    requires x <= y
    ensures Shl(x, k) <= Shl(y, k)
  {
    if k > 0 { ShlMonotone(x, y, k - 1); }
  }

  lemma {:induction false} ShlZero(k: nat)
    ensures Shl(0, k) == 0
  {
    if k > 0 { ShlZero(k - 1); }
  }

  lemma {:induction false} ShlOne(k: nat)
    ensures Shl(1, k) == Pow2(k)
  {
    if k > 0 { ShlOne(k - 1); }
  }

  /** `2^a << b == 2^(a+b)`. */
  lemma ShlPow2(a: nat, b: nat)
    ensures Shl(Pow2(a), b) == Pow2(a + b)
  {
    ShlOne(a);
    ShlOne(a + b);
    ShlShl(1, a, b);
  }

  /** A word of a bits shifted by b has a + b bits. */
  lemma ShlBound(x: nat, a: nat, b: nat)
    requires x < Pow2(a)
    ensures Shl(x, b) + Pow2(b) <= Pow2(a + b)
  {
    ShlPow2(a, b);
    ShlOne(b);
    ShlAdd(x, 1, b);
    ShlMonotone(x + 1, Pow2(a), b);
  }

  lemma {:induction false} Pow2Monotone(a: nat, b: nat)
    requires a <= b
    ensures Pow2(a) <= Pow2(b)
    decreases b
  {
    if a < b { Pow2Monotone(a, b - 1); }
  }

  lemma Pow2Step(k: nat)
    ensures Pow2(k + 1) == 2 * Pow2(k)
  {
  }

  lemma Pow2Table()
    ensures Pow2(0) == 1 && Pow2(1) == 2 && Pow2(2) == 4 && Pow2(3) == 8
    ensures Pow2(4) == 16 && Pow2(5) == 32 && Pow2(6) == 64 && Pow2(7) == 128
    ensures Pow2(8) == 256 && Pow2(12) == 4096 && Pow2(15) == 0x8000 && Pow2(16) == 0x1_0000
    ensures Pow2(24) == 0x100_0000 && Pow2(31) == 0x8000_0000 && Pow2(32) == U32_SIZE
  {
  }

  lemma MorePowers()
    ensures Pow2(9) == 512 && Pow2(10) == 1024 && Pow2(11) == 2048 && Pow2(13) == 8192 && Pow2(14) == 16384
  {
  }

  /** A word is its high part shifted plus its low part, and the two parts are determined by that. */
  lemma {:induction false} Split(hi: nat, lo: nat, k: nat)
    requires lo < Pow2(k)
    ensures Shr(Shl(hi, k) + lo, k) == hi
    ensures Low(Shl(hi, k) + lo, k) == lo
  {
    if k > 0 {
      Split(hi, lo / 2, k - 1);
      assert (Shl(hi, k) + lo) / 2 == Shl(hi, k - 1) + lo / 2;
    }
  }

  lemma {:induction false} Join(x: nat, k: nat)
    ensures x == Shl(Shr(x, k), k) + Low(x, k)
  {
    if k > 0 { Join(x / 2, k - 1); }
  }

  /** A quotient by a power of two, from below and from above. */
  lemma ShrBounds(x: nat, q: nat, k: nat)
    ensures Shl(q, k) <= x ==> q <= Shr(x, k)
    ensures x < Shl(q, k) ==> Shr(x, k) < q
  {
    Join(x, k);
    if Shl(q, k) <= x && Shr(x, k) < q {
      ShlAdd(Shr(x, k), 1, k);
      ShlOne(k);
      ShlMonotone(Shr(x, k) + 1, q, k);
    }
    if x < Shl(q, k) && Shr(x, k) >= q {
      ShlMonotone(q, Shr(x, k), k);
    }
  }

  lemma LowSmall(x: nat, k: nat)
    requires x < Pow2(k)
    ensures Low(x, k) == x
    ensures Shr(x, k) == 0
  {
    ShlZero(k);
    Split(0, x, k);
  }

  /** `|` of two words that share no bit is addition. */
  lemma {:induction false} OrDisjoint(lo: nat, hi: nat, k: nat)
    requires lo < Pow2(k)
    ensures BitOr(lo, Shl(hi, k)) == lo + Shl(hi, k)
    ensures BitOr(Shl(hi, k), lo) == lo + Shl(hi, k)
  {
    if k == 0 {
      OrZero(hi);
    } else {
      OrDisjoint(lo / 2, hi, k - 1);
      assert Shl(hi, k) / 2 == Shl(hi, k - 1) && Shl(hi, k) % 2 == 0;
    }
  }

  lemma {:induction false} OrZero(x: nat)
    ensures BitOr(0, x) == x && BitOr(x, 0) == x
  {
    if x > 0 { OrZero(x / 2); }
  }

  /** `& (2^k - 1)` keeps the low k bits. */
  lemma {:induction false} AndMask(x: nat, k: nat)
    ensures BitAnd(x, Pow2(k) - 1) == Low(x, k)
  {
    if k > 0 {
      if x == 0 {
        LowSmall(0, k);
      } else {
        AndMask(x / 2, k - 1);
        assert (Pow2(k) - 1) / 2 == Pow2(k - 1) - 1 && (Pow2(k) - 1) % 2 == 1;
      }
    }
  }

  /** `& 1` and `>> 1` take a number apart into its lowest bit and the rest. */
  lemma LowestBit(x: nat)
    ensures BitAnd(x, 1) == x % 2 && Shr(x, 1) == x / 2
  {
    AndMask(x, 1);
    assert Pow2(1) == 2 * Pow2(0);
    assert Low(x / 2, 0) == 0;
    assert Shr(x, 1) == Shr(x / 2, 0);
  }

  /** `^` with the all-ones word is the complement. */
  lemma {:induction false} XorMask(x: nat, k: nat)
    requires x < Pow2(k)
    ensures BitXor(x, Pow2(k) - 1) == Pow2(k) - 1 - x
  {
    if k > 0 {
      var m := Pow2(k) - 1;
      var half := Pow2(k - 1);
      assert m == 2 * half - 1;
      XorMask(x / 2, k - 1);
      hide Pow2;
      assert m / 2 == half - 1 && m % 2 == 1;
      assert BitXor(x, m) == 2 * BitXor(x / 2, m / 2) + if x % 2 != m % 2 then 1 else 0;
    }
  }

  // ---- 32-bit words ----

  lemma Shl8Bits(x: nat)
    ensures Shl(x, 8) == 256 * x
  {
    assert Shl(x, 7) == 2 * Shl(x, 6) && Shl(x, 5) == 2 * Shl(x, 4);
    assert Shl(x, 3) == 2 * Shl(x, 2) && Shl(x, 1) == 2 * Shl(x, 0);
  }

  lemma Shl32Bits(x: nat)
    ensures Shl(x, 32) == U32_SIZE * x
  {
    Shl8Bits(x);
    ShlShl(x, 8, 8);
    Shl8Bits(Shl(x, 8));
    ShlShl(x, 16, 8);
    Shl8Bits(Shl(x, 16));
    ShlShl(x, 24, 8);
    Shl8Bits(Shl(x, 24));
  }

  lemma Mod32IsLow(x: nat)
    ensures x % U32_SIZE == Low(x, 32)
  {
    hide Shl, Shr, Low;
    Join(x, 32);
    Shl32Bits(Shr(x, 32));
    Pow2Table();
  }

  /** No bit is lost when the shifted word fits. */
  lemma Shl32Exact(x: nat, a: nat, k: nat)
    requires x < Pow2(a) && a + k <= 32
    ensures Shl32(x, k) == Shl(x, k) < Pow2(a + k)
  {
    ShlBound(x, a, k);
    Pow2Monotone(a + k, 32);
    Pow2Table();
  }

  lemma {:induction false} OnesLow(n: nat, m: nat)
    requires m <= n
    ensures Low(Pow2(n) - 1, m) == Pow2(m) - 1
  {
    if m > 0 {
      OnesLow(n - 1, m - 1);
      assert (Pow2(n) - 1) / 2 == Pow2(n - 1) - 1 && (Pow2(n) - 1) % 2 == 1;
    }
  }

  /** n ones shifted by k, as far as they stay within m bits. */
  lemma {:induction false} ShiftedOnes(n: nat, m: nat, k: nat)
    requires k <= m <= n
    ensures Low(Shl(Pow2(n) - 1, k), m) == Pow2(m) - Pow2(k)
    decreases k
  {
    if k == 0 {
      OnesLow(n, m);
    } else {
      ShiftedOnes(n, m - 1, k - 1);
      assert Shl(Pow2(n) - 1, k) / 2 == Shl(Pow2(n) - 1, k - 1);
    }
  }

  /** `!(0xffffffff << k)` is the mask of the low k bits. */
  lemma LowMask32(k: nat)
    requires k <= 32
    ensures Not32(Shl32(U32_MAX, k)) == Pow2(k) - 1
  {
    Pow2Table();
    ShiftedOnes(32, 32, k);
    Mod32IsLow(Shl(U32_MAX, k));
  }

  lemma {:induction false} OnesShr(a: nat, b: nat)
    ensures Shr(Pow2(a + b) - 1, b) == Pow2(a) - 1
  {
    if b > 0 {
      OnesShr(a, b - 1);
      assert (Pow2(a + b) - 1) / 2 == Pow2(a + b - 1) - 1;
    }
  }

  /** `0xffffffff >> (32 - k)` is the mask of the low k bits. */
  lemma HighMask32(k: nat)
    requires k <= 32
    ensures Shr(U32_MAX, 32 - k) == Pow2(k) - 1
  {
    Pow2Table();
    OnesShr(k, 32 - k);
  }
}
