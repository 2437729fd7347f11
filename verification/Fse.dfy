/**
 * Finite state entropy coding as LZFSE uses it: what one table entry means, and why the entries of a symbol
 * split the range of states.
 */
module Fse {
  import opened Words

  // ---- Bit lengths ----

  function BitLength(x: nat): nat {
    if x == 0 then 0 else 1 + BitLength(x / 2)
  }

  /** Leading zeros of a 16-bit word. */
  function LeadingZeros16(x: nat): int {
    16 - BitLength(x)
  }

  lemma {:induction false} BitLengthBounds(x: nat)
    requires x > 0
    ensures BitLength(x) >= 1 && Pow2(BitLength(x) - 1) <= x < Pow2(BitLength(x))
  {
    if x > 1 { BitLengthBounds(x / 2); }
  }

  lemma {:induction false} BitLengthPow2(k: nat)
    ensures BitLength(Pow2(k)) == k + 1
  {
    if k > 0 {
      BitLengthPow2(k - 1);
      assert Pow2(k) / 2 == Pow2(k - 1);
    }
  }

  lemma {:induction false} BitLengthMonotone(x: nat, y: nat)
    requires x <= y
    ensures BitLength(x) <= BitLength(y)
    decreases y
  {
    if x > 0 { BitLengthMonotone(x / 2, y / 2); }
  }

  // ---- Entries ----

  /** Number of bits read at a state of a symbol of frequency f, before the adjustment of larger weights. */
  function NumberOfBits(k: nat, f: nat): (r: nat)
    requires 1 <= f <= Pow2(k)
    ensures r <= k && Pow2(k - r) <= f < Pow2(k - r + 1)
  {
    BitLengthBounds(f);
    BitLengthPow2(k);
    BitLengthMonotone(f, Pow2(k));
    LeadingZeros16(f) - LeadingZeros16(Pow2(k))
  }

  /** Weights below this one read one bit more than the others. */
  function BaseWeight(k: nat, f: nat): (r: nat)
    requires 1 <= f <= Pow2(k)
    ensures f + r == Pow2(k - NumberOfBits(k, f) + 1)
    ensures r >= 1 && r <= f
  {
    var n := NumberOfBits(k, f);
    ShlPow2(k - n + 1, n);
    assert k - n + 1 + n == k + 1;
    ShlZero(n);
    Split(Pow2(k - n + 1), 0, n);
    assert 2 * Pow2(k) == Pow2(k + 1);
    Shr(2 * Pow2(k), n) - f
  }

  /** The bits read at weight w of a symbol of frequency f, and the smallest state they lead to. */
  datatype Slot = Slot(bits: nat, delta: nat)

  function SlotOf(k: nat, f: nat, w: nat): Slot
    requires 1 <= f <= Pow2(k) && w < f
  {
    var n, base := NumberOfBits(k, f), BaseWeight(k, f);
    if w < base then
      LowSlot(k, f, w);
      Slot(n, Shl(f + w, n) - Pow2(k))
    else
      FullRange(k, f);
      Slot(n - 1, Shl(w - base, n - 1))
  }

  lemma LowSlot(k: nat, f: nat, w: nat)
    requires 1 <= f <= Pow2(k)
    ensures Shl(f + w, NumberOfBits(k, f)) >= Pow2(k)
  {
    var n := NumberOfBits(k, f);
    ShlMonotone(Pow2(k - n), f + w, n);
    ShlPow2(k - n, n);
  }

  /** Only a symbol of full frequency reads no bits, and then all its weights are small. */
  lemma FullRange(k: nat, f: nat)
    requires 1 <= f <= Pow2(k)
    ensures NumberOfBits(k, f) == 0 ==> BaseWeight(k, f) == f
  {
  }

  /**
   * The entry of weight w in the textbook form: the number f + w is shifted left until it lies between 2^k and
   * 2^(k + 1), by the number of bits to read, and the smallest next state is what it exceeds 2^k by.
   */
  lemma SlotClosed(k: nat, f: nat, w: nat)
    requires 1 <= f <= Pow2(k) && w < f
    ensures var slot := SlotOf(k, f, w);
      && Pow2(k) <= Shl(f + w, slot.bits) < Pow2(k + 1)
      && slot.delta == Shl(f + w, slot.bits) - Pow2(k)
  {
    hide NumberOfBits, BaseWeight, Shl, Pow2;
    var n, base := NumberOfBits(k, f), BaseWeight(k, f);
    LowSlot(k, f, w);
    FullRange(k, f);
    if w < base {
      ShlBound(f + w, k - n + 1, n);
      assert k - n + 1 + n == k + 1;
    } else {
      ShlAdd(f + base, w - base, n - 1);
      assert f + base + (w - base) == f + w;
      ShlPow2(k - n + 1, n - 1);
      assert k - n + 1 + (n - 1) == k;
      Pow2Step(k - n + 1);
      ShlBound(f + w, k - n + 2, n - 1);
      assert k - n + 2 + (n - 1) == k + 1;
    }
  }

  /** Only one number of bits does that. */
  lemma SlotUnique(k: nat, x: nat, a: nat, b: nat)
    requires x > 0 && Pow2(k) <= Shl(x, a) < Pow2(k + 1) && Pow2(k) <= Shl(x, b) < Pow2(k + 1)
    ensures a == b
  {
    hide Shl, Pow2;
    Pow2Step(k);
    if a < b {
      Doubled(x, a, b);
    } else if b < a {
      Doubled(x, b, a);
    }
  }

  lemma {:induction false} Doubled(x: nat, a: nat, b: nat)
    requires a < b
    ensures Shl(x, b) >= 2 * Shl(x, a)
    decreases b
  {
    if a < b - 1 { Doubled(x, a, b - 1); }
  }

  // ---- The entries of a symbol split the range of states ----

  /** Where the states reached from small weights start. */
  lemma Threshold(k: nat, f: nat)
    requires 1 <= f <= Pow2(k)
    ensures var n := NumberOfBits(k, f);
      n >= 1 ==> Shl(f, n) == Pow2(k) + Shl(f - BaseWeight(k, f), n - 1)
  {
    hide NumberOfBits, BaseWeight;
    var n, base := NumberOfBits(k, f), BaseWeight(k, f);
    if n >= 1 {
      ShlPow2(k - n + 1, n - 1);
      assert k - n + 1 + (n - 1) == k;
      ShlAdd(f - base, f + base, n - 1);
      assert f - base + (f + base) == f + f;
      ShlAdd(f, f, n - 1);
    }
  }

  /** The weight from which state x is reached. */
  function WeightOf(k: nat, f: nat, x: nat): (w: nat)
    requires 1 <= f <= Pow2(k) && x < Pow2(k)
    ensures w < f
  {
    var n, base := NumberOfBits(k, f), BaseWeight(k, f);
    if x + Pow2(k) >= Shl(f, n) then
      UpperWeight(k, f, x);
      Shr(x + Pow2(k), n) - f
    else
      LowerWeight(k, f, x);
      base + Shr(x, n - 1)
  }

  lemma UpperWeight(k: nat, f: nat, x: nat)
    requires 1 <= f <= Pow2(k) && x < Pow2(k) && x + Pow2(k) >= Shl(f, NumberOfBits(k, f))
    ensures f <= Shr(x + Pow2(k), NumberOfBits(k, f)) < f + BaseWeight(k, f)
  {
    hide NumberOfBits, BaseWeight, Shl, Shr;
    var n, base := NumberOfBits(k, f), BaseWeight(k, f);
    ShrBounds(x + Pow2(k), f, n);
    ShlPow2(k - n + 1, n);
    assert k - n + 1 + n == k + 1;
    ShrBounds(x + Pow2(k), f + base, n);
  }

  lemma LowerWeight(k: nat, f: nat, x: nat)
    requires 1 <= f <= Pow2(k) && x < Pow2(k) && x + Pow2(k) < Shl(f, NumberOfBits(k, f))
    ensures NumberOfBits(k, f) >= 1
    ensures Shr(x, NumberOfBits(k, f) - 1) < f - BaseWeight(k, f)
  {
    hide NumberOfBits, BaseWeight, Shr;
    var n, base := NumberOfBits(k, f), BaseWeight(k, f);
    assert n == 0 ==> Shl(f, n) == f;
    Threshold(k, f);
    ShrBounds(x, f - base, n - 1);
  }

  /** Weight w leads to state x. */
  predicate Reaches(k: nat, f: nat, w: nat, x: nat)
    requires 1 <= f <= Pow2(k) && w < f
  {
    var slot := SlotOf(k, f, w);
    slot.delta <= x < slot.delta + Pow2(slot.bits)
  }

  /** The two kinds of weights and what they reach. */
  lemma ReachesCases(k: nat, f: nat, w: nat, x: nat)
    requires 1 <= f <= Pow2(k) && w < f
    ensures var n, base := NumberOfBits(k, f), BaseWeight(k, f);
      if w < base then
        Reaches(k, f, w, x) <==> Shl(f + w, n) <= x + Pow2(k) < Shl(f + w, n) + Pow2(n)
      else
        n >= 1 && (Reaches(k, f, w, x) <==> Shl(w - base, n - 1) <= x < Shl(w - base, n - 1) + Pow2(n - 1))
  {
    hide NumberOfBits, BaseWeight, Shl, Pow2;
    LowSlot(k, f, w);
    FullRange(k, f);
  }

  lemma WeightCases(k: nat, f: nat, x: nat)
    requires 1 <= f <= Pow2(k) && x < Pow2(k)
    ensures var n, base := NumberOfBits(k, f), BaseWeight(k, f);
      if x + Pow2(k) >= Shl(f, n) then WeightOf(k, f, x) == Shr(x + Pow2(k), n) - f < base
      else n >= 1 && WeightOf(k, f, x) == base + Shr(x, n - 1)
  {
    hide NumberOfBits, BaseWeight, Shl, Shr, Pow2;
    if x + Pow2(k) >= Shl(f, NumberOfBits(k, f)) {
      UpperWeight(k, f, x);
    } else {
      LowerWeight(k, f, x);
    }
  }

  /** Every state is reached. */
  lemma WeightReaches(k: nat, f: nat, x: nat)
    requires 1 <= f <= Pow2(k) && x < Pow2(k)
    ensures Reaches(k, f, WeightOf(k, f, x), x)
  {
    hide NumberOfBits, BaseWeight, Shl, Shr, Low, Pow2, Reaches, WeightOf;
    var n, w := NumberOfBits(k, f), WeightOf(k, f, x);
    WeightCases(k, f, x);
    ReachesCases(k, f, w, x);
    if x + Pow2(k) >= Shl(f, n) {
      Join(x + Pow2(k), n);
    } else {
      Join(x, n - 1);
    }
  }

  /** No state is reached from two weights, and none outside the range is reached. */
  lemma ReachesUnique(k: nat, f: nat, w: nat, x: nat)
    requires 1 <= f <= Pow2(k) && w < f && Reaches(k, f, w, x)
    ensures x < Pow2(k) && w == WeightOf(k, f, x)
  {
    hide NumberOfBits, BaseWeight, Shl, Shr, Low, Pow2, Reaches, WeightOf;
    if w < BaseWeight(k, f) {
      SmallUnique(k, f, w, x);
    } else {
      LargeUnique(k, f, w, x);
    }
  }

  lemma SmallUnique(k: nat, f: nat, w: nat, x: nat)
    requires 1 <= f <= Pow2(k) && w < f && Reaches(k, f, w, x) && w < BaseWeight(k, f)
    ensures x < Pow2(k) && w == WeightOf(k, f, x)
  {
    hide NumberOfBits, BaseWeight, Shl, Shr, Low, Pow2, Reaches, WeightOf;
    var n := NumberOfBits(k, f);
    ReachesCases(k, f, w, x);
    Split(f + w, x + Pow2(k) - Shl(f + w, n), n);
    ShlMonotone(f, f + w, n);
    ShlBound(f + w, k - n + 1, n);
    assert k - n + 1 + n == k + 1;
    Pow2Step(k);
    WeightCases(k, f, x);
  }

  lemma LargeUnique(k: nat, f: nat, w: nat, x: nat)
    requires 1 <= f <= Pow2(k) && w < f && Reaches(k, f, w, x) && w >= BaseWeight(k, f)
    ensures x < Pow2(k) && w == WeightOf(k, f, x)
  {
    hide NumberOfBits, BaseWeight, Shl, Shr, Low, Pow2, Reaches, WeightOf;
    var n, base := NumberOfBits(k, f), BaseWeight(k, f);
    ReachesCases(k, f, w, x);
    Split(w - base, x - Shl(w - base, n - 1), n - 1);
    ShlAdd(w - base, 1, n - 1);
    ShlOne(n - 1);
    ShlMonotone(w - base + 1, f - base, n - 1);
    Threshold(k, f);
    RangeTop(k, f);
    WeightCases(k, f, x);
  }

  lemma RangeTop(k: nat, f: nat)
    requires 1 <= f <= Pow2(k)
    ensures Shl(f, NumberOfBits(k, f)) < 2 * Pow2(k)
  {
    hide NumberOfBits;
    var n := NumberOfBits(k, f);
    ShlBound(f, k - n + 1, n);
    assert k - n + 1 + n == k + 1;
  }

  /** The states reached from the weights of a symbol are exactly those below 2^k, each from one weight. */
  lemma Partition(k: nat, f: nat, x: nat)
    requires 1 <= f <= Pow2(k)
    ensures x < Pow2(k) <==> exists w :: 0 <= w < f && Reaches(k, f, w, x)
    ensures forall w, v :: 0 <= w < f && 0 <= v < f && Reaches(k, f, w, x) && Reaches(k, f, v, x) ==> w == v
  {
    hide Reaches, WeightOf;
    if x < Pow2(k) {
      WeightReaches(k, f, x);
    }
    forall w | 0 <= w < f && Reaches(k, f, w, x) ensures x < Pow2(k) && w == WeightOf(k, f, x) {
      ReachesUnique(k, f, w, x);
    }
  }
}
