/**
 * Bit streams. A stream is a finite sequence of bits that readers extend with zero bits for ever,
 * which is what the bit buffers do when they run out of input.
 */
module Bits {
  import opened Words

  type Bit = b: nat | b < 2

  /** Order in which a byte gives up its bits: DEFLATE starts at bit 0, bzip2 and LZFSE at bit 7. */
  datatype BitOrder = LsbFirst | MsbFirst

  /** Bit i of a stream, zero past its end. */
  function At(s: seq<Bit>, i: nat): Bit {
    if i < |s| then s[i] else 0
  }

  /** The n bits from pos on as a number whose first bit is the most significant one. */
  function MsbValue(s: seq<Bit>, pos: nat, n: nat): (v: nat)
    ensures v < Pow2(n)
  {
    if n == 0 then 0 else 2 * MsbValue(s, pos, n - 1) + At(s, pos + n - 1)
  }

  /** The n bits from pos on as a number whose first bit is the least significant one. */
  function LsbValue(s: seq<Bit>, pos: nat, n: nat): (v: nat)
    ensures v < Pow2(n)
    decreases n
  {
    if n == 0 then 0 else At(s, pos) + 2 * LsbValue(s, pos + 1, n - 1)
  }

  function Value(order: BitOrder, s: seq<Bit>, pos: nat, n: nat): (v: nat)
    ensures v < Pow2(n)
  {
    match order
    case LsbFirst => LsbValue(s, pos, n)
    case MsbFirst => MsbValue(s, pos, n)
  }

  lemma {:induction false} MsbSplit(s: seq<Bit>, pos: nat, a: nat, b: nat)
    ensures MsbValue(s, pos, a + b) == Shl(MsbValue(s, pos, a), b) + MsbValue(s, pos + a, b)
  {
    if b > 0 { MsbSplit(s, pos, a, b - 1); }
  }

  lemma {:induction false} LsbSplit(s: seq<Bit>, pos: nat, a: nat, b: nat)
    ensures LsbValue(s, pos, a + b) == LsbValue(s, pos, a) + Shl(LsbValue(s, pos + a, b), a)
    decreases a
  {
    if a > 0 { LsbSplit(s, pos + 1, a - 1, b); }
  }

  /** Past the end of the stream only zero bits are read. */
  lemma {:induction false} ZeroPadding(order: BitOrder, s: seq<Bit>, pos: nat, n: nat)
    requires |s| <= pos
    ensures Value(order, s, pos, n) == 0
    decreases n
  {
    if n > 0 {
      ZeroPadding(order, s, if order.LsbFirst? then pos + 1 else pos, n - 1);
    }
  }

  /** Whether a reader at pos still has a whole byte of the input ahead of it. */
  predicate MoreInput(size: nat, pos: nat) {
    (pos + 7) / 8 < size
  }

  // ---- Writing ----

  /** Stream s holds exactly the bits b from pos on. */
  ghost predicate Has(s: seq<Bit>, pos: nat, b: seq<Bit>) {
    forall i :: 0 <= i < |b| ==> At(s, pos + i) == b[i]
  }

  lemma HasConcat(s: seq<Bit>, pos: nat, a: seq<Bit>, b: seq<Bit>)
    ensures Has(s, pos, a + b) <==> Has(s, pos, a) && Has(s, pos + |a|, b)
  {
    if Has(s, pos, a + b) {
      forall i | 0 <= i < |a| ensures At(s, pos + i) == a[i] {
        assert (a + b)[i] == a[i];
      }
      forall i | 0 <= i < |b| ensures At(s, pos + |a| + i) == b[i] {
        assert (a + b)[|a| + i] == b[i];
      }
    }
    if Has(s, pos, a) && Has(s, pos + |a|, b) {
      forall i | 0 <= i < |a + b| ensures At(s, pos + i) == (a + b)[i] {
        if i >= |a| {
          assert At(s, pos + |a| + (i - |a|)) == b[i - |a|];
        }
      }
    }
  }

  /** v in n bits, least significant bit first. */
  function LsbBits(v: nat, n: nat): (b: seq<Bit>)
    ensures |b| == n
  {
    if n == 0 then [] else [v % 2] + LsbBits(v / 2, n - 1)
  }

  /** v in n bits, most significant bit first. */
  function MsbBits(v: nat, n: nat): (b: seq<Bit>)
    ensures |b| == n
  {
    if n == 0 then [] else MsbBits(v / 2, n - 1) + [v % 2]
  }

  lemma LsbCons(b: Bit, x: nat, n: nat)
    ensures LsbBits(b + 2 * x, n + 1) == [b] + LsbBits(x, n)
  {
    assert (b + 2 * x) / 2 == x && (b + 2 * x) % 2 == b;
  }

  /** A byte from its bits, the first one least significant. */
  function LsbOctet(b: seq<Bit>): nat
    requires |b| == 8
  {
    var x7: nat := b[7];
    var x6: nat := b[6] + 2 * x7;
    var x5: nat := b[5] + 2 * x6;
    var x4: nat := b[4] + 2 * x5;
    var x3: nat := b[3] + 2 * x4;
    var x2: nat := b[2] + 2 * x3;
    var x1: nat := b[1] + 2 * x2;
    b[0] + 2 * x1
  }

  lemma LsbOctetBits(b: seq<Bit>)
    requires |b| == 8
    ensures LsbBits(LsbOctet(b), 8) == b
  {
    hide LsbBits;
    var x7: nat := b[7];
    var x6: nat := b[6] + 2 * x7;
    var x5: nat := b[5] + 2 * x6;
    var x4: nat := b[4] + 2 * x5;
    var x3: nat := b[3] + 2 * x4;
    var x2: nat := b[2] + 2 * x3;
    var x1: nat := b[1] + 2 * x2;
    LsbCons(b[7], 0, 0);
    LsbCons(b[6], x7, 1);
    LsbCons(b[5], x6, 2);
    LsbCons(b[4], x5, 3);
    LsbCons(b[3], x4, 4);
    LsbCons(b[2], x3, 5);
    LsbCons(b[1], x2, 6);
    LsbCons(b[0], x1, 7);
    NoBitsWritten();
    assert b[7] + 2 * 0 == x7;
    assert LsbBits(x4, 4) == [b[4]] + ([b[5]] + ([b[6]] + ([b[7]] + [])));
    assert LsbBits(LsbOctet(b), 8) == [b[0]] + ([b[1]] + ([b[2]] + ([b[3]] + LsbBits(x4, 4))));
  }

  lemma NoBitsWritten()
    ensures LsbBits(0, 0) == [] && MsbBits(0, 0) == []
  {
  }

  /** Both orders hold the same bits, one from the end of the other. */
  lemma {:induction false} MsbIsLsbReversed(x: nat, n: nat, k: nat)
    requires k < n
    ensures MsbBits(x, n)[k] == LsbBits(x, n)[n - 1 - k]
  {
    if k < n - 1 { MsbIsLsbReversed(x / 2, n - 1, k); }
  }

  /** What the bits are: bit k of the number, from below or from above. */
  lemma {:induction false} LsbBitIs(x: nat, n: nat, k: nat)
    requires k < n
    ensures LsbBits(x, n)[k] == Shr(x, k) % 2
    decreases n
  {
    if k > 0 { LsbBitIs(x / 2, n - 1, k - 1); }
  }

  lemma {:induction false} ReadLsb(s: seq<Bit>, pos: nat, v: nat, n: nat)
    requires Has(s, pos, LsbBits(v, n))
    ensures LsbValue(s, pos, n) == Low(v, n)
    decreases n
  {
    if n > 0 {
      HasConcat(s, pos, [v % 2], LsbBits(v / 2, n - 1));
      assert At(s, pos + 0) == [v % 2][0];
      ReadLsb(s, pos + 1, v / 2, n - 1);
    }
  }

  lemma {:induction false} ReadMsb(s: seq<Bit>, pos: nat, v: nat, n: nat)
    requires Has(s, pos, MsbBits(v, n))
    ensures MsbValue(s, pos, n) == Low(v, n)
  {
    if n > 0 {
      HasConcat(s, pos, MsbBits(v / 2, n - 1), [v % 2]);
      assert At(s, pos + (n - 1) + 0) == [v % 2][0];
      ReadMsb(s, pos, v / 2, n - 1);
    }
  }

  /** A number that fits n bits is read back as written. */
  lemma ReadLsbExact(s: seq<Bit>, pos: nat, v: nat, n: nat)
    requires Has(s, pos, LsbBits(v, n)) && v < Pow2(n)
    ensures LsbValue(s, pos, n) == v
  {
    ReadLsb(s, pos, v, n);
    LowSmall(v, n);
  }

  lemma ReadMsbExact(s: seq<Bit>, pos: nat, v: nat, n: nat)
    requires Has(s, pos, MsbBits(v, n)) && v < Pow2(n)
    ensures MsbValue(s, pos, n) == v
  {
    ReadMsb(s, pos, v, n);
    LowSmall(v, n);
  }

  lemma ReadExact(order: BitOrder, s: seq<Bit>, pos: nat, v: nat, n: nat)
    requires Has(s, pos, ToBits(order, v, n)) && v < Pow2(n)
    ensures Value(order, s, pos, n) == v
  {
    if order.LsbFirst? {
      ReadLsbExact(s, pos, v, n);
    } else {
      ReadMsbExact(s, pos, v, n);
    }
  }

  /** Conversely, a stream from which v is read holds the bits of v. */
  lemma {:induction false} HasLsbValue(s: seq<Bit>, pos: nat, n: nat)
    ensures Has(s, pos, LsbBits(LsbValue(s, pos, n), n))
    decreases n
  {
    hide Has, At;
    if n == 0 {
      HasEmpty(s, pos);
    } else {
      HasLsbValue(s, pos + 1, n - 1);
      HasOne(s, pos);
      HasConcat(s, pos, [At(s, pos)], LsbBits(LsbValue(s, pos + 1, n - 1), n - 1));
    }
  }

  lemma {:induction false} HasMsbValue(s: seq<Bit>, pos: nat, n: nat)
    ensures Has(s, pos, MsbBits(MsbValue(s, pos, n), n))
  {
    hide Has, At;
    if n == 0 {
      HasEmpty(s, pos);
    } else {
      HasMsbValue(s, pos, n - 1);
      HasOne(s, pos + n - 1);
      HasConcat(s, pos, MsbBits(MsbValue(s, pos, n - 1), n - 1), [At(s, pos + n - 1)]);
    }
  }

  lemma HasEmpty(s: seq<Bit>, pos: nat)
    ensures Has(s, pos, [])
  {
  }

  lemma HasOne(s: seq<Bit>, pos: nat)
    ensures Has(s, pos, [At(s, pos)])
  {
  }

  lemma HasValue(order: BitOrder, s: seq<Bit>, pos: nat, n: nat)
    ensures Has(s, pos, ToBits(order, Value(order, s, pos, n), n))
  {
    HasLsbValue(s, pos, n);
    HasMsbValue(s, pos, n);
  }

  // ---- Bytes to bits and back ----

  /** v in n bits in the given order. */
  function ToBits(order: BitOrder, v: nat, n: nat): (b: seq<Bit>)
    ensures |b| == n
  {
    if order.LsbFirst? then LsbBits(v, n) else MsbBits(v, n)
  }

  /** The bits of a byte string in reading order. */
  function BitsOf(order: BitOrder, data: seq<Byte>): (s: seq<Bit>)
    ensures |s| == 8 * |data|
  {
    seq(8 * |data|, i requires 0 <= i < 8 * |data| => ToBits(order, data[i / 8], 8)[i % 8])
  }

  /** Packs bits into bytes, with zero bits up to the end of the last byte. */
  function Pack(order: BitOrder, bits: seq<Bit>): (data: seq<Byte>)
    ensures |data| == (|bits| + 7) / 8
  {
    Pow2Table();
    seq((|bits| + 7) / 8, j requires 0 <= j => Value(order, bits, 8 * j, 8))
  }

  lemma BitsOfCons(order: BitOrder, b: Byte, rest: seq<Byte>)
    ensures BitsOf(order, [b] + rest) == ToBits(order, b, 8) + BitsOf(order, rest)
  {
    hide ToBits;
    var all, parts := BitsOf(order, [b] + rest), ToBits(order, b, 8) + BitsOf(order, rest);
    forall i | 0 <= i < |all| ensures all[i] == parts[i] {
      if i >= 8 {
        assert (i - 8) / 8 == i / 8 - 1 && (i - 8) % 8 == i % 8;
      }
    }
  }

  /** Bit i of a byte string: DEFLATE counts the bits of a byte from below, bzip2 and LZFSE from above. */
  lemma BitOfData(order: BitOrder, data: seq<Byte>, i: nat)
    requires i < 8 * |data|
    ensures BitsOf(order, data)[i] == Shr(data[i / 8], if order.LsbFirst? then i % 8 else 7 - i % 8) % 2
  {
    hide LsbBits, MsbBits, Shr;
    var x, k := data[i / 8], i % 8;
    if order.LsbFirst? {
      LsbBitIs(x, 8, k);
    } else {
      MsbIsLsbReversed(x, 8, k);
      LsbBitIs(x, 8, 7 - k);
    }
  }

  /** Bit k of a number that was read is bit k of the stream, from below or from above. */
  lemma {:induction false} LsbValueBit(s: seq<Bit>, pos: nat, n: nat, k: nat)
    requires k < n
    ensures Shr(LsbValue(s, pos, n), k) % 2 == At(s, pos + k)
    decreases n
  {
    var v := LsbValue(s, pos, n);
    assert v / 2 == LsbValue(s, pos + 1, n - 1) && v % 2 == At(s, pos);
    if k > 0 { LsbValueBit(s, pos + 1, n - 1, k - 1); }
  }

  lemma {:induction false} MsbValueBit(s: seq<Bit>, pos: nat, n: nat, k: nat)
    requires k < n
    ensures Shr(MsbValue(s, pos, n), n - 1 - k) % 2 == At(s, pos + k)
    decreases n
  {
    var v := MsbValue(s, pos, n);
    assert v / 2 == MsbValue(s, pos, n - 1) && v % 2 == At(s, pos + n - 1);
    if k < n - 1 { MsbValueBit(s, pos, n - 1, k); }
  }

  /** Eight bits at a byte boundary are that byte, or zero past the end of the data. */
  lemma ByteIsValue(order: BitOrder, data: seq<Byte>, j: nat)
    ensures Value(order, BitsOf(order, data), 8 * j, 8) == if j < |data| then data[j] else 0
  {
    var s := BitsOf(order, data);
    if j < |data| {
      forall k | 0 <= k < 8
        ensures At(s, 8 * j + k) == ToBits(order, data[j], 8)[k]
      {
        assert (8 * j + k) / 8 == j && (8 * j + k) % 8 == k;
      }
      Pow2Table();
      ReadExact(order, s, 8 * j, data[j], 8);
    } else {
      ZeroPadding(order, s, 8 * j, 8);
    }
  }

  /** Reading packed bits back gives the same stream, with zero bits past its end. */
  lemma PackedAt(order: BitOrder, bits: seq<Bit>, i: nat)
    ensures At(BitsOf(order, Pack(order, bits)), i) == At(bits, i)
  {
    hide ToBits, Value;
    var data := Pack(order, bits);
    var j, k := i / 8, i % 8;
    if i < 8 * |data| {
      HasValue(order, bits, 8 * j, 8);
      assert At(bits, 8 * j + k) == ToBits(order, data[j], 8)[k];
    }
  }

  lemma PackedHas(order: BitOrder, bits: seq<Bit>)
    ensures Has(BitsOf(order, Pack(order, bits)), 0, bits)
  {
    forall i | 0 <= i < |bits|
      ensures At(BitsOf(order, Pack(order, bits)), 0 + i) == bits[i]
    {
      PackedAt(order, bits, i);
    }
  }
}
