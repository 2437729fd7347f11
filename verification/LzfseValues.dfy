/** The L, M and D value tables of LZFSE: which symbol stands for a value, and how the value is read back. */
module LzfseValues {
  import opened Options
  import opened Words
  import opened Bits
  import opened FseTables
  import opened FseCoding
  import opened LzfseFormat

  const D_VALUE_BITS: seq<nat> :=
    [0, 0, 0, 0, 1, 1, 1, 1, 2, 2, 2, 2, 3, 3, 3, 3]
    + [4, 4, 4, 4, 5, 5, 5, 5, 6, 6, 6, 6, 7, 7, 7, 7]
    + [8, 8, 8, 8, 9, 9, 9, 9, 10, 10, 10, 10, 11, 11, 11, 11]
    + [12, 12, 12, 12, 13, 13, 13, 13, 14, 14, 14, 14, 15, 15, 15, 15]

  const D_VALUE_BASE: seq<nat> :=
    [0, 1, 2, 3, 4, 6, 8, 10, 12, 16, 20, 24, 28, 36, 44, 52]
    + [60, 76, 92, 108, 124, 156, 188, 220, 252, 316, 380, 444, 508, 636, 764, 892]
    + [1020, 1276, 1532, 1788, 2044, 2556, 3068, 3580, 4092, 5116, 6140, 7164, 8188, 10236, 12284, 14332]
    + [16380, 20476, 24572, 28668, 32764, 40956, 49148, 57340, 65532, 81916, 98300, 114684, 131068, 163836, 196604, 229372]

  const L_VALUE_BITS: seq<nat> := [0, 0, 0, 0, 0, 0, 0, 0, 0, 0, 0, 0, 0, 0, 0, 0, 2, 3, 5, 8]

  const L_VALUE_BASE: seq<nat> := [0, 1, 2, 3, 4, 5, 6, 7, 8, 9, 10, 11, 12, 13, 14, 15, 16, 20, 28, 60]

  const M_VALUE_BITS: seq<nat> := [0, 0, 0, 0, 0, 0, 0, 0, 0, 0, 0, 0, 0, 0, 0, 0, 3, 5, 8, 11]

  const M_VALUE_BASE: seq<nat> := [0, 1, 2, 3, 4, 5, 6, 7, 8, 9, 10, 11, 12, 13, 14, 15, 16, 24, 56, 312]

  /** The ranges of the symbols follow each other without gap or overlap, from 0 up to `limit`. */
  predicate Contiguous(bits: seq<nat>, base: seq<nat>, limit: nat) {
    && 0 < |bits| == |base|
    && base[0] == 0
    && (forall i :: 0 <= i < |base| - 1 ==> base[i + 1] == base[i] + Pow2(bits[i]))
    && limit == base[|base| - 1] + Pow2(bits[|base| - 1])
  }

  lemma LengthTables()
    ensures Contiguous(L_VALUE_BITS, L_VALUE_BASE, 316)
    ensures Contiguous(M_VALUE_BITS, M_VALUE_BASE, 2360)
  {
    Pow2Table();
    MorePowers();
  }

  lemma DistanceTable()
    ensures Contiguous(D_VALUE_BITS, D_VALUE_BASE, 262140)
  {
    hide Pow2;
    DistanceEnds();
    forall i | 0 <= i < 63 ensures D_VALUE_BASE[i + 1] == D_VALUE_BASE[i] + Pow2(D_VALUE_BITS[i]) {
      DistanceStep(i);
    }
  }

  lemma DistanceEnds()
    ensures |D_VALUE_BITS| == |D_VALUE_BASE| == 64 && D_VALUE_BASE[0] == 0
    ensures D_VALUE_BASE[63] + Pow2(D_VALUE_BITS[63]) == 262140
  {
    Pow2Table();
    assert D_VALUE_BASE[0] == 0 && D_VALUE_BASE[63] == 229372;
  }

  lemma DistanceStep(i: nat)
    requires i < 63
    ensures |D_VALUE_BITS| == |D_VALUE_BASE| == 64
    ensures D_VALUE_BASE[i + 1] == D_VALUE_BASE[i] + Pow2(D_VALUE_BITS[i])
  {
    hide Pow2;
    if i < 16 {
      FirstDistances(i);
    } else if i < 32 {
      SecondDistances(i);
    } else if i < 48 {
      ThirdDistances(i);
    } else {
      LastDistances(i);
    }
  }

  lemma FirstDistances(i: nat)
    requires 0 <= i < 16
    ensures D_VALUE_BASE[i + 1] == D_VALUE_BASE[i] + Pow2(D_VALUE_BITS[i])
  {
    hide Pow2;
    Pow2Table();
    MorePowers();
  }

  lemma SecondDistances(i: nat)
    requires 16 <= i < 32
    ensures D_VALUE_BASE[i + 1] == D_VALUE_BASE[i] + Pow2(D_VALUE_BITS[i])
  {
    hide Pow2;
    Pow2Table();
    MorePowers();
  }

  lemma ThirdDistances(i: nat)
    requires 32 <= i < 48
    ensures D_VALUE_BASE[i + 1] == D_VALUE_BASE[i] + Pow2(D_VALUE_BITS[i])
  {
    hide Pow2;
    Pow2Table();
    MorePowers();
  }

  lemma LastDistances(i: nat)
    requires 48 <= i < 63
    ensures D_VALUE_BASE[i + 1] == D_VALUE_BASE[i] + Pow2(D_VALUE_BITS[i])
  {
    hide Pow2;
    Pow2Table();
    MorePowers();
  }

  /** The symbol whose range holds the value. */
  function SymbolOf(bits: seq<nat>, base: seq<nat>, limit: nat, value: nat, top: nat): (r: nat)
    requires Contiguous(bits, base, limit) && top < |base|
    requires value < base[top] + Pow2(bits[top])
    ensures r <= top && base[r] <= value < base[r] + Pow2(bits[r])
  {
    if base[top] <= value || top == 0 then top
    else SymbolOf(bits, base, limit, value, top - 1)
  }

  /** The ranges of the L symbols. */
  lemma LSymbol(value: nat)
    requires value < 316
    ensures Contiguous(L_VALUE_BITS, L_VALUE_BASE, 316)
    ensures SymbolOf(L_VALUE_BITS, L_VALUE_BASE, 316, value, 19) ==
      if value < 16 then value else if value < 20 then 16 else if value < 28 then 17 else if value < 60 then 18 else 19
  {
    hide SymbolOf, Pow2, Contiguous;
    LengthTables();
    Pow2Table();
    var r := SymbolOf(L_VALUE_BITS, L_VALUE_BASE, 316, value, 19);
    var i := if value < 16 then value else if value < 20 then 16 else if value < 28 then 17 else if value < 60 then 18 else 19;
    SymbolUnique(L_VALUE_BITS, L_VALUE_BASE, 316, r, i, value);
  }

  /** The ranges of the M symbols. */
  lemma MSymbol(value: nat)
    requires value < 2360
    ensures Contiguous(M_VALUE_BITS, M_VALUE_BASE, 2360)
    ensures SymbolOf(M_VALUE_BITS, M_VALUE_BASE, 2360, value, 19) ==
      if value < 16 then value else if value < 24 then 16 else if value < 56 then 17 else if value < 312 then 18 else 19
  {
    hide SymbolOf, Pow2, Contiguous;
    LengthTables();
    Pow2Table();
    MorePowers();
    var r := SymbolOf(M_VALUE_BITS, M_VALUE_BASE, 2360, value, 19);
    var i := if value < 16 then value else if value < 24 then 16 else if value < 56 then 17 else if value < 312 then 18 else 19;
    SymbolUnique(M_VALUE_BITS, M_VALUE_BASE, 2360, r, i, value);
  }

  /** The D symbols: four to each number of extra bits. */
  lemma {:induction false} DClosed(i: nat)
    requires i < 64
    ensures |D_VALUE_BITS| == |D_VALUE_BASE| == 64
    ensures D_VALUE_BITS[i] == i / 4 && D_VALUE_BASE[i] + 4 == Shl(4 + i % 4, i / 4)
  {
    hide Shl, Pow2;
    DistanceEnds();
    DBits(i);
    if i == 0 {
      FirstShift();
    } else {
      DClosed(i - 1);
      DistanceStep(i - 1);
      var q := (i - 1) / 4;
      if i % 4 != 0 {
        assert i / 4 == q && i % 4 == (i - 1) % 4 + 1;
        ShlAdd(4 + (i - 1) % 4, 1, q);
        ShlOne(q);
      } else {
        assert i / 4 == q + 1 && (i - 1) % 4 == 3;
        ShlAdd(7, 1, q);
        ShlOne(q);
        NextShift(q);
      }
    }
  }

  lemma FirstShift()
    ensures Shl(4, 0) == 4
  {
  }

  lemma NextShift(q: nat)
    ensures Shl(8, q) == Shl(4, q + 1)
  {
    ShlAdd(4, 4, q);
  }

  lemma DBits(i: nat)
    requires i < 64
    ensures |D_VALUE_BITS| == 64 && D_VALUE_BITS[i] == i / 4
  {
    if i < 16 {
    } else if i < 32 {
    } else if i < 48 {
    }
  }

  /** No other symbol's range holds it. */
  lemma SymbolUnique(bits: seq<nat>, base: seq<nat>, limit: nat, i: nat, j: nat, value: nat)
    requires Contiguous(bits, base, limit) && i < |base| && j < |base|
    requires base[i] <= value < base[i] + Pow2(bits[i]) && base[j] <= value < base[j] + Pow2(bits[j])
    ensures i == j
  {
    hide Pow2;
    if i < j { BaseMonotone(bits, base, limit, i + 1, j); }
    if j < i { BaseMonotone(bits, base, limit, j + 1, i); }
  }

  lemma {:induction false} BaseMonotone(bits: seq<nat>, base: seq<nat>, limit: nat, i: nat, j: nat)
    requires Contiguous(bits, base, limit) && i <= j < |base|
    ensures base[i] <= base[j]
    decreases j
  {
    hide Pow2;
    if i < j {
      BaseMonotone(bits, base, limit, i, j - 1);
      assert base[j - 1 + 1] == base[j - 1] + Pow2(bits[j - 1]);
    }
  }

  // ---- Value entries ----

  /** An entry together with the extra bits of its symbol's values. */
  function Widen(e: Entry, valueBits: seq<nat>, valueBase: seq<nat>): ValueEntry
    requires e.symbol < |valueBits| && e.symbol < |valueBase|
  {
    ValueEntry(e.bits + valueBits[e.symbol], valueBits[e.symbol], e.delta, valueBase[e.symbol],
               Pow2(valueBits[e.symbol]) - 1)
  }

  /** A value table is the plain table with the extra bits added. */
  ghost predicate IsWidened(values: seq<ValueEntry>, table: seq<Entry>, valueBits: seq<nat>, valueBase: seq<nat>) {
    && |values| == |table|
    && forall i :: 0 <= i < |table| ==>
      table[i].symbol < |valueBits| && table[i].symbol < |valueBase| && values[i] == Widen(table[i], valueBits, valueBase)
  }

  /** Every value in these tables has few extra bits. */
  predicate Bounded(valueBits: seq<nat>, k: nat) {
    forall i :: 0 <= i < |valueBits| ==> valueBits[i] + k <= 32
  }

  lemma ValueBitsBounded()
    ensures Bounded(L_VALUE_BITS, 6) && Bounded(M_VALUE_BITS, 6) && Bounded(D_VALUE_BITS, 8)
  {
  }

  lemma WidenedSound(values: seq<ValueEntry>, k: nat, frequencies: seq<nat>, valueBits: seq<nat>, valueBase: seq<nat>)
    requires Fits(k, frequencies) && IsWidened(values, Table(k, frequencies), valueBits, valueBase) && Bounded(valueBits, k)
    ensures SoundTable(values, Pow2(k))
  {
    hide Table, Sum, Pow2;
    var table := Table(k, frequencies);
    forall i | 0 <= i < |values| ensures Sound(values[i]) {
      EntriesStay(k, frequencies, i);
      assert values[i] == Widen(table[i], valueBits, valueBase);
    }
  }

  /** State i stands for the symbol and can be followed by state x, once the extra value bits are set aside. */
  ghost predicate ValuePrecedes(values: seq<ValueEntry>, table: seq<Entry>, symbol: Byte, i: nat, x: nat) {
    && i < |values| == |table| && table[i].symbol == symbol
    && values[i].valueBits <= values[i].numberOfBits
    && values[i].delta <= x < values[i].delta + Pow2(values[i].numberOfBits - values[i].valueBits)
  }

  /** Value tables split the range of states like plain tables. */
  lemma ValuePartition(values: seq<ValueEntry>, k: nat, frequencies: seq<nat>, valueBits: seq<nat>, valueBase: seq<nat>,
                       symbol: Byte, x: nat)
    requires Fits(k, frequencies) && symbol < |frequencies| && frequencies[symbol] > 0
    requires IsWidened(values, Table(k, frequencies), valueBits, valueBase)
    ensures var table := Table(k, frequencies);
      && (x < Pow2(k) <==> exists i: nat :: ValuePrecedes(values, table, symbol, i, x))
      && (forall i, j: nat :: ValuePrecedes(values, table, symbol, i, x) && ValuePrecedes(values, table, symbol, j, x) ==> i == j)
      && (Sum(frequencies) == Pow2(k) && x < Pow2(k) ==> x < |values|)
  {
    hide Table, Sum, Pow2;
    var table := Table(k, frequencies);
    TablePartition(k, frequencies, symbol, x);
    forall i: nat ensures ValuePrecedes(values, table, symbol, i, x) <==> Precedes(table, symbol, i, x) {
      if i < |table| {
        assert values[i] == Widen(table[i], valueBits, valueBase);
      }
    }
  }

  // ---- Writing values ----

  /** A finite state code for values: 2^k states and the ranges of the symbols. */
  datatype ValueCode = ValueCode(k: nat, frequencies: seq<nat>, bits: seq<nat>, base: seq<nat>, limit: nat) {

    ghost predicate Valid() {
      && Fits(k, frequencies) && Contiguous(bits, base, limit)
      && |frequencies| == |bits| && Bounded(bits, k)
    }

    /** The symbol of a value. */
    function Symbol(value: nat): (r: nat)
      requires Contiguous(bits, base, limit) && value < limit
      ensures r < |base| && base[r] <= value < base[r] + Pow2(bits[r])
    {
      SymbolOf(bits, base, limit, value, |base| - 1)
    }

    /** The value is in range and its symbol is in use. */
    ghost predicate Has(value: nat)
      requires Valid()
    {
      value < limit && frequencies[Symbol(value)] > 0
    }

    /** The state that reads the value and goes on in state x. */
    ghost function State(value: nat, x: nat): (i: nat)
      requires Valid() && Has(value) && x < Pow2(k)
      ensures i < |Table(k, frequencies)| <= Pow2(k)
      ensures Table(k, frequencies)[i].symbol == Symbol(value) && LeadsTo(Table(k, frequencies)[i], x)
    {
      StateFor(k, frequencies, Symbol(value), x)
    }

    /** The bits it reads. */
    ghost function Written(value: nat, x: nat): seq<Bit>
      requires Valid() && Has(value) && x < Pow2(k)
    {
      Emitted(Table(k, frequencies)[State(value, x)], x) + MsbBits(value - base[Symbol(value)], bits[Symbol(value)])
    }
  }

  /** A written value is read back and leaves the decoder in the state the encoder came from. */
  lemma ValueRoundTrip(c: ValueCode, values: seq<ValueEntry>, value: nat, x: nat, s: seq<Bit>, pos: nat)
    requires c.Valid() && c.Has(value) && x < Pow2(c.k)
    requires IsWidened(values, Table(c.k, c.frequencies), c.bits, c.base)
    requires Bits.Has(s, pos, c.Written(value, x))
    ensures ValueAt(values, c.State(value, x), s, pos) == Some(Reading(value, x, pos + |c.Written(value, x)|))
  {
    hide Table, Sum, LeadsTo, Emitted, Bits.Has, MsbValue, MsbBits, Contiguous, Pow2;
    var i, symbol := c.State(value, x), c.Symbol(value);
    var e := Table(c.k, c.frequencies)[i];
    HasConcat(s, pos, Emitted(e, x), MsbBits(value - c.base[symbol], c.bits[symbol]));
    EmittedRead(e, x, s, pos);
    ReadMsbExact(s, pos + e.bits, value - c.base[symbol], c.bits[symbol]);
    WidenedSound(values, c.k, c.frequencies, c.bits, c.base);
    assert values[i] == Widen(e, c.bits, c.base);
  }
}
