/** The checksums of CRC-32 as division of the data's own bits, one step per bit. */
module Crc32Bits {
  import opened Words
  import opened Bits
  import opened Crc32

  /** A byte as an 8-bit word. */
  function Octet(b: Byte): bv8 {
    b as bv8
  }

  lemma OctetWraps(b: Byte)
    ensures Octet(b) as int == b % 256
  {
  }

  lemma OctetIsByte(b: Byte)
    ensures Octet(b) as nat == b
  {
    hide Octet;
    OctetWraps(b);
  }

  /** Bytes as 8-bit words. */
  function Octets(data: seq<Byte>): (r: seq<bv8>)
    ensures |r| == |data|
  {
    seq(|data|, i requires 0 <= i < |data| => Octet(data[i]))
  }

  // ---- Bit by bit ----

  /** The next bit of the data and the bit that leaves the remainder decide whether the polynomial is subtracted. */
  function FeedBit(p: bv32, c: bv32, bit: Bit): bv32 {
    if TopBit(c) != (bit == 1) then Xor(p, Shl1(c)) else Shl1(c)
  }

  function Feed(p: bv32, c: bv32, bits: seq<Bit>): bv32
    decreases |bits|
  {
    if |bits| == 0 then c else Feed(p, FeedBit(p, c, bits[0]), bits[1..])
  }

  function RevFeedBit(p: bv32, c: bv32, bit: Bit): bv32 {
    if LowBit(c) != (bit == 1) then Xor(p, Shr1(c)) else Shr1(c)
  }

  function RevFeed(p: bv32, c: bv32, bits: seq<Bit>): bv32
    decreases |bits|
  {
    if |bits| == 0 then c else RevFeed(p, RevFeedBit(p, c, bits[0]), bits[1..])
  }

  lemma {:induction false} FeedAppend(p: bv32, c: bv32, a: seq<Bit>, b: seq<Bit>)
    ensures Feed(p, c, a + b) == Feed(p, Feed(p, c, a), b)
    ensures RevFeed(p, c, a + b) == RevFeed(p, RevFeed(p, c, a), b)
    decreases |a|
  {
    hide FeedBit, RevFeedBit;
    if |a| == 0 {
      assert a + b == b;
    } else {
      assert (a + b)[1..] == a[1..] + b && (a + b)[0] == a[0];
      FeedAppend(p, FeedBit(p, c, a[0]), a[1..], b);
      FeedAppend(p, RevFeedBit(p, c, a[0]), a[1..], b);
    }
  }

  // ---- The bits of a byte ----

  function TopOf(v: bv8): Bit { if v & 0x80 != 0 then 1 else 0 }

  function LowOf(v: bv8): Bit { if v & 1 != 0 then 1 else 0 }

  function Half(v: bv8): bv8 { v >> 1 }

  function Double(v: bv8): bv8 { v << 1 }

  function Halves(v: bv8, n: nat): bv8
    decreases n
  {
    if n == 0 then v else Halves(Half(v), n - 1)
  }

  function Doubles(v: bv8, n: nat): bv8
    decreases n
  {
    if n == 0 then v else Doubles(Double(v), n - 1)
  }

  lemma HalfIsNat(v: bv8)
    ensures Half(v) as nat == v as nat / 2
  {
  }

  lemma LowIsNat(v: bv8)
    ensures LowOf(v) == v as nat % 2
  {
  }

  /** Bits from the lowest on, by halving. */
  function LowList(v: bv8, n: nat): (r: seq<Bit>)
    ensures |r| == n
    decreases n
  {
    if n == 0 then [] else [LowOf(v)] + LowList(Half(v), n - 1)
  }

  /** Bits from the highest on, by doubling. */
  function TopList(v: bv8, n: nat): (r: seq<Bit>)
    ensures |r| == n
    decreases n
  {
    if n == 0 then [] else [TopOf(v)] + TopList(Double(v), n - 1)
  }

  lemma {:induction false} LowListIsLsb(v: bv8, n: nat)
    ensures LowList(v, n) == LsbBits(v as nat, n)
    decreases n
  {
    hide Half, LowOf;
    if n > 0 {
      HalfIsNat(v);
      LowIsNat(v);
      LowListIsLsb(Half(v), n - 1);
    }
  }

  lemma {:induction false} LowListAt(v: bv8, n: nat, k: nat)
    requires k < n
    ensures LowList(v, n)[k] == LowOf(Halves(v, k))
    decreases n
  {
    hide Half, LowOf;
    if k > 0 { LowListAt(Half(v), n - 1, k - 1); }
  }

  lemma {:induction false} TopListAt(v: bv8, n: nat, k: nat)
    requires k < n
    ensures TopList(v, n)[k] == TopOf(Doubles(v, k))
    decreases n
  {
    hide Double, TopOf;
    if k > 0 { TopListAt(Double(v), n - 1, k - 1); }
  }

  /** Doubling k times brings up the bit that halving 7 - k times brings down. */
  lemma OppositeEnds(v: bv8)
    ensures TopOf(v) == LowOf(v >> 7) && TopOf(v << 1) == LowOf(v >> 6) && TopOf(v << 2) == LowOf(v >> 5)
    ensures TopOf(v << 3) == LowOf(v >> 4) && TopOf(v << 4) == LowOf(v >> 3) && TopOf(v << 5) == LowOf(v >> 2)
    ensures TopOf(v << 6) == LowOf(v >> 1) && TopOf(v << 7) == LowOf(v)
  {
  }

  lemma HalvesUnfolded(v: bv8)
    ensures Halves(v, 1) == Half(v) && Halves(v, 2) == Half(Half(v)) && Halves(v, 3) == Half(Half(Half(v)))
    ensures Halves(v, 4) == Half(Half(Half(Half(v)))) && Halves(v, 5) == Half(Half(Half(Half(Half(v)))))
    ensures Halves(v, 6) == Half(Half(Half(Half(Half(Half(v)))))) && Halves(v, 7) == Half(Half(Half(Half(Half(Half(Half(v)))))))
  {
    hide Half;
    assert Halves(Half(Half(Half(v))), 4) == Half(Half(Half(Half(Half(Half(Half(v)))))));
    assert Halves(Half(Half(v)), 4) == Half(Half(Half(Half(Half(Half(v))))));
    assert Halves(Half(v), 4) == Half(Half(Half(Half(Half(v)))));
  }

  lemma DoublesUnfolded(v: bv8)
    ensures Doubles(v, 1) == Double(v) && Doubles(v, 2) == Double(Double(v)) && Doubles(v, 3) == Double(Double(Double(v)))
    ensures Doubles(v, 4) == Double(Double(Double(Double(v)))) && Doubles(v, 5) == Double(Double(Double(Double(Double(v)))))
    ensures Doubles(v, 6) == Double(Double(Double(Double(Double(Double(v))))))
    ensures Doubles(v, 7) == Double(Double(Double(Double(Double(Double(Double(v)))))))
  {
    hide Double;
    assert Doubles(Double(Double(Double(v))), 4) == Double(Double(Double(Double(Double(Double(Double(v)))))));
    assert Doubles(Double(Double(v)), 4) == Double(Double(Double(Double(Double(Double(v))))));
    assert Doubles(Double(v), 4) == Double(Double(Double(Double(Double(v)))));
  }

  lemma NestedShifts(v: bv8)
    ensures Half(v) == v >> 1 && Half(v >> 1) == v >> 2 && Half(v >> 2) == v >> 3 && Half(v >> 3) == v >> 4
    ensures Half(v >> 4) == v >> 5 && Half(v >> 5) == v >> 6 && Half(v >> 6) == v >> 7
    ensures Double(v) == v << 1 && Double(v << 1) == v << 2 && Double(v << 2) == v << 3 && Double(v << 3) == v << 4
    ensures Double(v << 4) == v << 5 && Double(v << 5) == v << 6 && Double(v << 6) == v << 7
  {
  }

  lemma TopListIsMsb(v: bv8)
    ensures TopList(v, 8) == MsbBits(v as nat, 8)
  {
    hide TopList, LowList, MsbBits, LsbBits, TopOf, LowOf, Halves, Doubles, Half, Double;
    var bits := MsbBits(v as nat, 8);
    LowListIsLsb(v, 8);
    OppositeEnds(v);
    HalvesUnfolded(v);
    DoublesUnfolded(v);
    NestedShifts(v);
    NoShift(v);
    forall k | 0 <= k < 8 ensures TopList(v, 8)[k] == bits[k] {
      TopListAt(v, 8, k);
      LowListAt(v, 8, 7 - k);
      MsbIsLsbReversed(v as nat, 8, k);
    }
  }

  lemma NoShift(v: bv8)
    ensures Halves(v, 0) == v && Doubles(v, 0) == v
  {
  }

  // ---- Division of a byte ----

  /** A byte at the top and at the bottom of a word. */
  function High(v: bv8): bv32 { (v as bv32) << 24 }

  function Low8(v: bv8): bv32 { v as bv32 }

  lemma EnterIsXor(c: bv32, v: bv8)
    ensures Enter(c, v) == Xor(c, High(v)) && RevEnter(c, v) == Xor(c, Low8(v))
  {
  }

  lemma ByteTop(v: bv8)
    ensures TopBit(High(v)) <==> TopOf(v) == 1
  {
  }

  lemma ByteLow(v: bv8)
    ensures LowBit(Low8(v)) <==> LowOf(v) == 1
  {
  }

  lemma ByteShift(v: bv8)
    ensures Shl1(High(v)) == High(Double(v))
  {
  }

  lemma RevByteShift(v: bv8)
    ensures Shr1(Low8(v)) == Low8(Half(v))
  {
  }

  lemma EnterTop(c: bv32, v: bv8)
    ensures TopBit(Enter(c, v)) <==> TopBit(c) != (TopOf(v) == 1)
    ensures LowBit(RevEnter(c, v)) <==> LowBit(c) != (LowOf(v) == 1)
  {
    hide TopBit, LowBit, Enter, RevEnter, TopOf, LowOf, Xor, High, Low8;
    EnterIsXor(c, v);
    ByteTop(v);
    ByteLow(v);
    Crc32.BitXor(c, High(v));
    Crc32.BitXor(c, Low8(v));
  }

  lemma EnterShift(c: bv32, v: bv8)
    ensures Shl1(Enter(c, v)) == Enter(Shl1(c), Double(v))
    ensures Shr1(RevEnter(c, v)) == RevEnter(Shr1(c), Half(v))
  {
    hide Shl1, Shr1, Enter, RevEnter, Double, Half, Xor, High, Low8;
    EnterIsXor(c, v);
    EnterIsXor(Shl1(c), Double(v));
    EnterIsXor(Shr1(c), Half(v));
    ShiftXor(c, High(v));
    ShiftXor(c, Low8(v));
    ByteShift(v);
    RevByteShift(v);
  }

  lemma EnterXor(p: bv32, c: bv32, v: bv8)
    ensures Enter(Xor(p, c), v) == Xor(p, Enter(c, v))
    ensures RevEnter(Xor(p, c), v) == Xor(p, RevEnter(c, v))
  {
  }

  /** A bit that waits at the end of the remainder is fed by one division step. */
  lemma StepEnter(p: bv32, c: bv32, v: bv8)
    ensures Step(p, Enter(c, v)) == Enter(FeedBit(p, c, TopOf(v)), Double(v))
    ensures RevStep(p, RevEnter(c, v)) == RevEnter(RevFeedBit(p, c, LowOf(v)), Half(v))
  {
    hide TopBit, LowBit, Enter, RevEnter, TopOf, LowOf, Shl1, Shr1, Double, Half, Xor;
    EnterTop(c, v);
    EnterShift(c, v);
    EnterXor(p, Shl1(c), Double(v));
    EnterXor(p, Shr1(c), Half(v));
  }

  lemma {:induction false} StepsFirst(p: bv32, c: bv32, n: nat)
    requires n > 0
    ensures Steps(p, c, n) == Steps(p, Step(p, c), n - 1)
    ensures RevSteps(p, c, n) == RevSteps(p, RevStep(p, c), n - 1)
    decreases n
  {
    hide Step, RevStep;
    if n > 1 { StepsFirst(p, c, n - 1); }
  }

  lemma {:induction false} BitsFed(p: bv32, c: bv32, v: bv8, n: nat)
    ensures Steps(p, Enter(c, v), n) == Enter(Feed(p, c, TopList(v, n)), Doubles(v, n))
    decreases n
  {
    hide Step, Enter, FeedBit, TopOf, Double;
    if n > 0 {
      StepsFirst(p, Enter(c, v), n);
      StepEnter(p, c, v);
      BitsFed(p, FeedBit(p, c, TopOf(v)), Double(v), n - 1);
      assert TopList(v, n)[1..] == TopList(Double(v), n - 1);
    }
  }

  lemma {:induction false} RevBitsFed(p: bv32, c: bv32, v: bv8, n: nat)
    ensures RevSteps(p, RevEnter(c, v), n) == RevEnter(RevFeed(p, c, LowList(v, n)), Halves(v, n))
    decreases n
  {
    hide RevStep, RevEnter, RevFeedBit, LowOf, Half;
    if n > 0 {
      StepsFirst(p, RevEnter(c, v), n);
      StepEnter(p, c, v);
      RevBitsFed(p, RevFeedBit(p, c, LowOf(v)), Half(v), n - 1);
      assert LowList(v, n)[1..] == LowList(Half(v), n - 1);
    }
  }

  lemma NothingLeft(c: bv32, v: bv8)
    ensures Double(v << 7) == 0 && Half(v >> 7) == 0 && Enter(c, 0) == c && RevEnter(c, 0) == c
  {
  }

  lemma {:induction false} OneMoreShift(v: bv8, n: nat)
    ensures Doubles(v, n + 1) == Double(Doubles(v, n)) && Halves(v, n + 1) == Half(Halves(v, n))
    decreases n
  {
    hide Double, Half;
    if n > 0 {
      OneMoreShift(Double(v), n - 1);
      OneMoreShift(Half(v), n - 1);
    }
  }

  /** Eight division steps with a byte at the end of the remainder feed the eight bits of the byte. */
  lemma ByteFed(p: bv32, c: bv32, v: bv8)
    ensures Steps(p, Enter(c, v), 8) == Feed(p, c, MsbBits(v as nat, 8))
    ensures RevSteps(p, RevEnter(c, v), 8) == RevFeed(p, c, LsbBits(v as nat, 8))
  {
    hide Steps, RevSteps, Enter, RevEnter, Feed, RevFeed, TopList, LowList, MsbBits, LsbBits, Doubles, Halves, Double, Half;
    BitsFed(p, c, v, 8);
    RevBitsFed(p, c, v, 8);
    TopListIsMsb(v);
    LowListIsLsb(v, 8);
    HalvesUnfolded(v);
    DoublesUnfolded(v);
    NestedShifts(v);
    OneMoreShift(v, 7);
    NothingLeft(Feed(p, c, TopList(v, 8)), v);
    NothingLeft(RevFeed(p, c, LowList(v, 8)), v);
  }

  // ---- Division of the data ----

  lemma BitsOfSnoc(order: BitOrder, data: seq<Byte>, b: Byte)
    ensures BitsOf(order, data + [b]) == BitsOf(order, data) + ToBits(order, b, 8)
  {
    hide ToBits;
    var all, parts := BitsOf(order, data + [b]), BitsOf(order, data) + ToBits(order, b, 8);
    forall i | 0 <= i < |all| ensures all[i] == parts[i] {
      if i >= 8 * |data| {
        assert i / 8 == |data| && i % 8 == i - 8 * |data|;
      }
    }
  }

  /** The remainder of the data is what is left after its bits are fed, from the top of each byte or from the bottom. */
  lemma {:induction false} RemainderIsFeed(p: bv32, c: bv32, data: seq<Byte>)
    ensures Remainder(p, c, Octets(data)) == Feed(p, c, BitsOf(MsbFirst, data))
    ensures RevRemainder(p, c, Octets(data)) == RevFeed(p, c, BitsOf(LsbFirst, data))
  {
    hide Steps, RevSteps, Enter, RevEnter, Feed, RevFeed, MsbBits, LsbBits, BitsOf, Octet;
    if |data| == 0 {
      NoBits(p, c, data);
    } else {
      var n := |data| - 1;
      var first, b := data[..n], data[n];
      RemainderIsFeed(p, c, first);
      assert data == first + [b] && Octets(data)[..n] == Octets(first);
      BitsOfSnoc(MsbFirst, first, b);
      BitsOfSnoc(LsbFirst, first, b);
      OctetIsByte(b);
      ByteFed(p, Remainder(p, c, Octets(first)), Octet(b));
      ByteFed(p, RevRemainder(p, c, Octets(first)), Octet(b));
      FeedAppend(p, c, BitsOf(MsbFirst, first), MsbBits(b, 8));
      FeedAppend(p, c, BitsOf(LsbFirst, first), LsbBits(b, 8));
    }
  }

  lemma NoBits(p: bv32, c: bv32, data: seq<Byte>)
    requires |data| == 0
    ensures Feed(p, c, BitsOf(MsbFirst, data)) == c && RevFeed(p, c, BitsOf(LsbFirst, data)) == c
  {
  }

  // ---- Checksums ----

  /** The checksum of data, complemented before and after the division of its bits. */
  function BitCrc(p: bv32, initialValue: bv32, data: seq<Byte>): bv32 {
    Xor(Feed(p, Xor(initialValue, ONES), BitsOf(MsbFirst, data)), ONES)
  }

  function RevBitCrc(p: bv32, initialValue: bv32, data: seq<Byte>): bv32 {
    Xor(RevFeed(p, Xor(initialValue, ONES), BitsOf(LsbFirst, data)), ONES)
  }

  lemma CrcIsBitCrc(p: bv32, initialValue: bv32, data: seq<Byte>)
    ensures BitCrc(p, initialValue, data) == Crc(p, initialValue, Octets(data))
    ensures RevBitCrc(p, initialValue, data) == RevCrc(p, initialValue, Octets(data))
  {
    hide Feed, RevFeed, BitsOf, Octets, Remainder, RevRemainder, Xor;
    RemainderIsFeed(p, Xor(initialValue, ONES), data);
  }

  lemma OctetsAppend(x: seq<Byte>, y: seq<Byte>)
    ensures Octets(x + y) == Octets(x) + Octets(y)
  {
    hide Octet;
  }
}
