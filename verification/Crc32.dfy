/** CRC-32 by table lookup, in both bit orders, against bit-by-bit polynomial division. */
module Crc32 {

  // Word operations have names so that the proofs below can treat them algebraically.

  function Xor(a: bv32, b: bv32): bv32 { a ^ b }

  function Shl1(c: bv32): bv32 { c << 1 }

  function Shr1(c: bv32): bv32 { c >> 1 }

  predicate TopBit(c: bv32) { c & 0x8000_0000 != 0 }

  predicate LowBit(c: bv32) { c & 1 != 0 }

  // ---- Division one bit at a time ----

  /** Shifts the remainder left by one and subtracts the polynomial when a bit falls out. */
  function Step(p: bv32, c: bv32): bv32 {
    if TopBit(c) then Xor(p, Shl1(c)) else Shl1(c)
  }

  function Steps(p: bv32, c: bv32, n: nat): bv32 {
    if n == 0 then c else Step(p, Steps(p, c, n - 1))
  }

  /** The byte enters at the top of the remainder. */
  function Enter(c: bv32, b: bv8): bv32 { c ^ ((b as bv32) << 24) }

  function Remainder(p: bv32, c: bv32, data: seq<bv8>): bv32 {
    if |data| == 0 then c
    else Steps(p, Enter(Remainder(p, c, data[..|data| - 1]), data[|data| - 1]), 8)
  }

  // ---- The reversed division ----

  function RevStep(p: bv32, c: bv32): bv32 {
    if LowBit(c) then Xor(p, Shr1(c)) else Shr1(c)
  }

  function RevSteps(p: bv32, c: bv32, n: nat): bv32 {
    if n == 0 then c else RevStep(p, RevSteps(p, c, n - 1))
  }

  /** The byte enters at the bottom of the remainder. */
  function RevEnter(c: bv32, b: bv8): bv32 { c ^ (b as bv32) }

  function RevRemainder(p: bv32, c: bv32, data: seq<bv8>): bv32 {
    if |data| == 0 then c
    else RevSteps(p, RevEnter(RevRemainder(p, c, data[..|data| - 1]), data[|data| - 1]), 8)
  }

  // ---- Word algebra ----

  lemma ShiftXor(a: bv32, b: bv32)
    ensures Shl1(Xor(a, b)) == Xor(Shl1(a), Shl1(b))
    ensures Shr1(Xor(a, b)) == Xor(Shr1(a), Shr1(b))
  {
  }

  lemma BitXor(a: bv32, b: bv32)
    ensures TopBit(Xor(a, b)) <==> TopBit(a) != TopBit(b)
    ensures LowBit(Xor(a, b)) <==> LowBit(a) != LowBit(b)
  {
  }

  lemma XorAssociates(p: bv32, x: bv32, y: bv32)
    ensures Xor(p, Xor(x, y)) == Xor(Xor(p, x), y)
  {
  }

  lemma XorCommutes(x: bv32, y: bv32)
    ensures Xor(x, y) == Xor(y, x)
  {
  }

  lemma XorCancels(p: bv32, x: bv32)
    ensures Xor(p, Xor(p, x)) == x
  {
  }

  lemma XorRegroup(p: bv32, x: bv32, y: bv32)
    ensures Xor(p, Xor(x, y)) == Xor(Xor(p, x), y) == Xor(x, Xor(p, y))
    ensures Xor(Xor(p, x), Xor(p, y)) == Xor(x, y)
  {
    hide Xor;
    XorAssociates(p, x, y);
    XorAssociates(x, p, y);
    XorCommutes(p, x);
    XorAssociates(Xor(x, p), p, y);
    XorAssociates(x, p, Xor(p, y));
    XorCancels(p, y);
  }

  // ---- Division is linear, so eight steps can be looked up ----

  lemma StepXor(p: bv32, a: bv32, b: bv32)
    ensures Step(p, Xor(a, b)) == Xor(Step(p, a), Step(p, b))
    ensures RevStep(p, Xor(a, b)) == Xor(RevStep(p, a), RevStep(p, b))
  {
    hide Xor, Shl1, Shr1, TopBit, LowBit;
    ShiftXor(a, b);
    BitXor(a, b);
    XorRegroup(p, Shl1(a), Shl1(b));
    XorRegroup(p, Shr1(a), Shr1(b));
  }

  lemma {:induction false} StepsXor(p: bv32, a: bv32, b: bv32, n: nat)
    ensures Steps(p, Xor(a, b), n) == Xor(Steps(p, a, n), Steps(p, b, n))
    ensures RevSteps(p, Xor(a, b), n) == Xor(RevSteps(p, a, n), RevSteps(p, b, n))
  {
    hide Xor, Step, RevStep;
    if n > 0 {
      StepsXor(p, a, b, n - 1);
      StepXor(p, Steps(p, a, n - 1), Steps(p, b, n - 1));
      StepXor(p, RevSteps(p, a, n - 1), RevSteps(p, b, n - 1));
    }
  }

  function ShlN(c: bv32, n: nat): bv32 { if n == 0 then c else Shl1(ShlN(c, n - 1)) }

  function ShrN(c: bv32, n: nat): bv32 { if n == 0 then c else Shr1(ShrN(c, n - 1)) }

  /** While no bit falls out, division only shifts. */
  lemma {:induction false} ShiftOnly(p: bv32, c: bv32, n: nat)
    ensures (forall k :: 0 <= k < n ==> !TopBit(ShlN(c, k))) ==> Steps(p, c, n) == ShlN(c, n)
    ensures (forall k :: 0 <= k < n ==> !LowBit(ShrN(c, k))) ==> RevSteps(p, c, n) == ShrN(c, n)
  {
    hide Xor, Shl1, Shr1, TopBit, LowBit;
    if n > 0 { ShiftOnly(p, c, n - 1); }
  }

  function Shl8(c: bv32): bv32 { c << 8 }

  function Shr8(c: bv32): bv32 { c >> 8 }

  lemma ShlNext(c: bv32)
    ensures (c << 1) << 1 == c << 2 && (c << 2) << 1 == c << 3 && (c << 3) << 1 == c << 4
    ensures (c << 4) << 1 == c << 5 && (c << 5) << 1 == c << 6 && (c << 6) << 1 == c << 7
    ensures (c << 7) << 1 == c << 8
  {
  }

  lemma ShrNext(c: bv32)
    ensures (c >> 1) >> 1 == c >> 2 && (c >> 2) >> 1 == c >> 3 && (c >> 3) >> 1 == c >> 4
    ensures (c >> 4) >> 1 == c >> 5 && (c >> 5) >> 1 == c >> 6 && (c >> 6) >> 1 == c >> 7
    ensures (c >> 7) >> 1 == c >> 8
  {
  }

  lemma ShlIsShift(c: bv32)
    requires c & 0xff00_0000 == 0
    ensures ShlN(c, 8) == Shl8(c)
    ensures forall k :: 0 <= k < 8 ==> !TopBit(ShlN(c, k))
  {
    ShlNext(c);
    assert ShlN(c, 0) == c;
    assert ShlN(c, 1) == c << 1;
    assert ShlN(c, 2) == c << 2;
    assert ShlN(c, 3) == c << 3;
    assert ShlN(c, 4) == c << 4;
    assert ShlN(c, 5) == c << 5;
    assert ShlN(c, 6) == c << 6;
    assert ShlN(c, 7) == c << 7;
    assert ShlN(c, 8) == c << 8;
    assert !TopBit(c);
    assert !TopBit(c << 1);
    assert !TopBit(c << 2);
    assert !TopBit(c << 3);
    assert !TopBit(c << 4);
    assert !TopBit(c << 5);
    assert !TopBit(c << 6);
    assert !TopBit(c << 7);
  }

  lemma ShrIsShift(c: bv32)
    requires c & 0xff == 0
    ensures ShrN(c, 8) == Shr8(c)
    ensures forall k :: 0 <= k < 8 ==> !LowBit(ShrN(c, k))
  {
    ShrNext(c);
    assert ShrN(c, 0) == c;
    assert ShrN(c, 1) == c >> 1;
    assert ShrN(c, 2) == c >> 2;
    assert ShrN(c, 3) == c >> 3;
    assert ShrN(c, 4) == c >> 4;
    assert ShrN(c, 5) == c >> 5;
    assert ShrN(c, 6) == c >> 6;
    assert ShrN(c, 7) == c >> 7;
    assert ShrN(c, 8) == c >> 8;
    assert !LowBit(c);
    assert !LowBit(c >> 1);
    assert !LowBit(c >> 2);
    assert !LowBit(c >> 3);
    assert !LowBit(c >> 4);
    assert !LowBit(c >> 5);
    assert !LowBit(c >> 6);
    assert !LowBit(c >> 7);
  }

  /** Eight steps of a remainder whose outgoing byte is clear only shift it. */
  lemma ByteShift(p: bv32, c: bv32)
    ensures c & 0xff00_0000 == 0 ==> Steps(p, c, 8) == Shl8(c)
    ensures c & 0xff == 0 ==> RevSteps(p, c, 8) == Shr8(c)
  {
    hide Steps, RevSteps, ShlN, ShrN, Shl8, Shr8, TopBit, LowBit;
    ShiftOnly(p, c, 8);
    if c & 0xff00_0000 == 0 { ShlIsShift(c); }
    if c & 0xff == 0 { ShrIsShift(c); }
  }

  // ---- Table lookup ----

  function TableIndex(c: bv32, b: bv8): bv32 { ((c >> 24) ^ (b as bv32)) & 0xff }

  function RevTableIndex(c: bv32, b: bv8): bv32 { (c ^ (b as bv32)) & 0xff }

  function TopByte(i: bv32): bv32 { i << 24 }

  function Rest(c: bv32): bv32 { c & 0x00ff_ffff }

  function RevRest(c: bv32): bv32 { c & 0xffff_ff00 }

  lemma SplitByte(c: bv32, b: bv8)
    ensures Enter(c, b) == Xor(TopByte(TableIndex(c, b)), Rest(c))
  {
  }

  lemma RestShift(c: bv32)
    ensures Shl8(Rest(c)) == Shl8(c) && Rest(c) & 0xff00_0000 == 0
    ensures Shr8(RevRest(c)) == Shr8(c) && RevRest(c) & 0xff == 0
  {
  }

  lemma RevSplitByte(c: bv32, b: bv8)
    ensures RevEnter(c, b) == Xor(RevTableIndex(c, b), RevRest(c))
  {
  }

  /** One lookup is eight steps of division. */
  lemma Lookup(p: bv32, c: bv32, b: bv8)
    ensures Steps(p, Enter(c, b), 8) == Xor(Steps(p, TopByte(TableIndex(c, b)), 8), Shl8(c))
    ensures RevSteps(p, RevEnter(c, b), 8) == Xor(RevSteps(p, RevTableIndex(c, b), 8), Shr8(c))
  {
    hide Xor, Enter, RevEnter, Shl8, Shr8, TopByte, TableIndex, RevTableIndex, Rest, RevRest, Steps, RevSteps;
    SplitByte(c, b);
    RevSplitByte(c, b);
    RestShift(c);
    StepsXor(p, TopByte(TableIndex(c, b)), Rest(c), 8);
    StepsXor(p, RevTableIndex(c, b), RevRest(c), 8);
    ByteShift(p, Rest(c));
    ByteShift(p, RevRest(c));
  }

  // ---- Splitting the data ----

  lemma {:induction false} RemainderAppend(p: bv32, c: bv32, x: seq<bv8>, y: seq<bv8>)
    ensures Remainder(p, c, x + y) == Remainder(p, Remainder(p, c, x), y)
    ensures RevRemainder(p, c, x + y) == RevRemainder(p, RevRemainder(p, c, x), y)
  {
    hide Steps, RevSteps, Enter, RevEnter;
    if |y| == 0 {
      assert x + y == x;
    } else {
      var n := |y| - 1;
      RemainderAppend(p, c, x, y[..n]);
      assert (x + y)[..|x| + n] == x + y[..n];
    }
  }

  // ---- Reflection ----

  /** The 32 bits of a word in opposite order. */
  function Reverse32(x: bv32): bv32 {
    var a := ((x >> 1) & 0x5555_5555) | ((x & 0x5555_5555) << 1);
    var b := ((a >> 2) & 0x3333_3333) | ((a & 0x3333_3333) << 2);
    var c := ((b >> 4) & 0x0f0f_0f0f) | ((b & 0x0f0f_0f0f) << 4);
    var d := ((c >> 8) & 0x00ff_00ff) | ((c & 0x00ff_00ff) << 8);
    (d >> 16) | (d << 16)
  }

  function Reverse8(x: bv8): bv8 {
    var a := ((x >> 1) & 0x55) | ((x & 0x55) << 1);
    var b := ((a >> 2) & 0x33) | ((a & 0x33) << 2);
    (b >> 4) | (b << 4)
  }

  function ReverseBytes(data: seq<bv8>): seq<bv8> {
    seq(|data|, i requires 0 <= i < |data| => Reverse8(data[i]))
  }

  lemma ReverseXor(a: bv32, b: bv32)
    ensures Reverse32(Xor(a, b)) == Xor(Reverse32(a), Reverse32(b))
  {
  }

  lemma ReverseShift(a: bv32)
    ensures Reverse32(Shl1(a)) == Shr1(Reverse32(a))
    ensures TopBit(a) == LowBit(Reverse32(a))
  {
  }

  lemma ReverseEnter(c: bv32, b: bv8)
    ensures Reverse32(Enter(c, b)) == RevEnter(Reverse32(c), Reverse8(b))
  {
  }

  /** Bit k of a word. */
  function BitAt(x: bv32, k: bv32): bv32
    requires k < 32
  {
    (x >> k) & 1
  }

  /** Reversal does what it says: bit k and bit 31 - k change places, bit k and bit 7 - k of a byte. */
  lemma ReversedBits(x: bv32, b: bv8, k: bv32)
    requires k < 32
    ensures BitAt(Reverse32(x), 31 - k) == BitAt(x, k)
    ensures k < 8 ==> BitAt(Reverse8(b) as bv32, 7 - k) == BitAt(b as bv32, k)
  {
  }

  lemma {:induction false} ReverseSteps(p: bv32, c: bv32, n: nat)
    ensures Reverse32(Steps(p, c, n)) == RevSteps(Reverse32(p), Reverse32(c), n)
  {
    hide Reverse32, Xor, Shl1, Shr1, TopBit, LowBit;
    if n > 0 {
      ReverseSteps(p, c, n - 1);
      ReverseShift(Steps(p, c, n - 1));
      ReverseXor(p, Shl1(Steps(p, c, n - 1)));
    }
  }

  /** The reversed division of reversed bytes is the reversal of the division. */
  lemma {:induction false} Reflection(p: bv32, c: bv32, data: seq<bv8>)
    ensures RevRemainder(Reverse32(p), Reverse32(c), ReverseBytes(data)) == Reverse32(Remainder(p, c, data))
  {
    hide Reverse32, Reverse8, Steps, RevSteps, Enter, RevEnter;
    if |data| > 0 {
      var n := |data| - 1;
      Reflection(p, c, data[..n]);
      var r := Remainder(p, c, data[..n]);
      assert ReverseBytes(data)[..n] == ReverseBytes(data[..n]);
      ReverseEnter(r, data[n]);
      ReverseSteps(p, Enter(r, data[n]), 8);
    }
  }

  const ONES: bv32 := 0xffff_ffff

  /** The checksum of data: complemented before and after the division. */
  function Crc(p: bv32, initialValue: bv32, data: seq<bv8>): bv32 {
    Xor(Remainder(p, Xor(initialValue, ONES), data), ONES)
  }

  function RevCrc(p: bv32, initialValue: bv32, data: seq<bv8>): bv32 {
    Xor(RevRemainder(p, Xor(initialValue, ONES), data), ONES)
  }

  lemma ReverseOnes()
    ensures Reverse32(ONES) == ONES
  {
  }

  /** The reversed checksum with everything reversed is the reversed checksum. */
  lemma CrcReflection(p: bv32, initialValue: bv32, data: seq<bv8>)
    ensures RevCrc(Reverse32(p), Reverse32(initialValue), ReverseBytes(data)) == Reverse32(Crc(p, initialValue, data))
  {
    hide Reverse32, Xor, Remainder, RevRemainder;
    ReverseOnes();
    ReverseXor(initialValue, ONES);
    Reflection(p, Xor(initialValue, ONES), data);
    ReverseXor(Remainder(p, Xor(initialValue, ONES), data), ONES);
  }
}
