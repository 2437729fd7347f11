/** The Huffman tree: counts per code size and the symbols sorted by code size. */
module Huffman {
  import opened Options
  import opened Words
  import opened Bits
  import opened Bitstreams
  import opened CountingSort
  import opened HuffmanCodes

  class HuffmanTree {
    const largestCodeSize: nat
    var symbols: seq<nat>
    var codeSizeCounts: seq<int>

    /** The code sizes of the last successful build. */
    ghost var codeSizes: seq<nat>

    ghost predicate WellFormed()
      reads this
    {
      |codeSizeCounts| == largestCodeSize + 1
    }

    /** The tables describe the canonical code of `codeSizes`. */
    ghost predicate Built()
      reads this
    {
      && WellFormed()
      && Acceptable(codeSizes, largestCodeSize)
      && (forall k :: 1 <= k <= largestCodeSize ==> codeSizeCounts[k] == Count(codeSizes, k))
      && Filled(symbols, codeSizes, 1, largestCodeSize + 1, |codeSizes|)
    }

    constructor (numberOfSymbols: nat, largestCodeSize: nat)
      ensures WellFormed() && |symbols| == numberOfSymbols && this.largestCodeSize == largestCodeSize
    {
      this.largestCodeSize := largestCodeSize;
      this.symbols := seq(numberOfSymbols, _ => 0);
      this.codeSizeCounts := seq(largestCodeSize + 1, _ => 0);
    }

    /** Counts the sizes; fails on the first one that is too large. */
    method CountSizes(sizes: seq<Byte>) returns (ok: bool)
      requires WellFormed()
      modifies this`codeSizeCounts
      ensures WellFormed()
      ensures ok <==> forall i :: 0 <= i < |sizes| ==> sizes[i] <= largestCodeSize
      ensures ok ==> forall k :: 0 <= k <= largestCodeSize ==> codeSizeCounts[k] == Count(sizes, k)
    {
      codeSizeCounts := seq(largestCodeSize + 1, _ => 0);
      assert sizes[..0] == [];
      for i := 0 to |sizes|
        invariant WellFormed()
        invariant forall j :: 0 <= j < i ==> sizes[j] <= largestCodeSize
        invariant forall k :: 0 <= k <= largestCodeSize ==> codeSizeCounts[k] == Count(sizes[..i], k)
      {
        var codeSize := sizes[i];
        if codeSize > largestCodeSize {
          return false;
        }
        assert sizes[..i + 1][..i] == sizes[..i];
        codeSizeCounts := codeSizeCounts[codeSize := codeSizeCounts[codeSize] + 1];
      }
      assert sizes[..|sizes|] == sizes;
      ok := true;
    }

    /** The running check for an over-subscribed set of sizes. */
    method CheckSubscription(ghost sizes: seq<Byte>) returns (ok: bool)
      requires WellFormed()
      requires forall i :: 0 <= i < |sizes| ==> sizes[i] <= largestCodeSize
      requires forall k :: 0 <= k <= largestCodeSize ==> codeSizeCounts[k] == Count(sizes, k)
      ensures ok <==> Kraft(sizes, largestCodeSize) <= Pow2(largestCodeSize)
    {
      LeftIsKraft(sizes, largestCodeSize);
      var leftValue := 1;
      for bitIndex := 1 to largestCodeSize + 1
        invariant leftValue == Left(sizes, bitIndex - 1)
        invariant leftValue >= 0
      {
        leftValue := 2 * leftValue - codeSizeCounts[bitIndex];
        if leftValue < 0 {
          LeftStaysNegative(sizes, bitIndex, largestCodeSize);
          return false;
        }
      }
      ok := true;
    }

    /** Offsets of the first symbol of every code size. */
    method SymbolOffsets(ghost sizes: seq<Byte>) returns (offsets: seq<nat>)
      requires WellFormed()
      requires forall k :: 0 <= k <= largestCodeSize ==> codeSizeCounts[k] == Count(sizes, k)
      ensures |offsets| >= largestCodeSize + 1
      ensures forall k :: 1 <= k <= largestCodeSize ==> offsets[k] == Below(sizes, 1, k)
    {
      offsets := [0, 0];
      if largestCodeSize == 0 {
        return;
      }
      for bitIndex := 1 to largestCodeSize
        invariant |offsets| == bitIndex + 1
        invariant forall k :: 1 <= k <= bitIndex ==> offsets[k] == Below(sizes, 1, k)
      {
        offsets := offsets + [offsets[bitIndex] + codeSizeCounts[bitIndex]];
      }
    }

    /**
     * Puts the symbols in order of code size. An offset never leaves the number of sizes, so the bounds error of the
     * original cannot occur; it leaves the table exactly when more symbols have codes than the table has places.
     */
    method FillSymbols(sizes: seq<Byte>, symbolOffsets: seq<nat>) returns (ok: bool)
      requires |sizes| <= 65535
      requires forall i :: 0 <= i < |sizes| ==> sizes[i] <= largestCodeSize
      requires |symbolOffsets| >= largestCodeSize + 1
      requires forall k :: 1 <= k <= largestCodeSize ==> symbolOffsets[k] == Below(sizes, 1, k)
      modifies this`symbols
      ensures |symbols| == old(|symbols|)
      ensures ok <==> Below(sizes, 1, largestCodeSize + 1) <= |symbols|
      ensures ok ==> Filled(symbols, sizes, 1, largestCodeSize + 1, |sizes|)
    {
      hide Filled, Count, Below, Order;
      var offsets := symbolOffsets;
      NothingFilled(symbols, sizes, 1, largestCodeSize + 1);
      for symbol := 0 to |sizes|
        invariant |offsets| == |symbolOffsets| && |symbols| == old(|symbols|)
        invariant forall k :: 1 <= k <= largestCodeSize ==>
            offsets[k] == Below(sizes, 1, k) + Count(sizes[..symbol], k)
        invariant Filled(symbols, sizes, 1, largestCodeSize + 1, symbol)
      {
        var codeSize := sizes[symbol];
        forall k: nat ensures Count(sizes[..symbol + 1], k) == Count(sizes[..symbol], k) + if codeSize == k then 1 else 0 {
          CountNext(sizes, symbol, k);
        }
        if codeSize > 0 {
          var codeOffset := offsets[codeSize];
          SlotBound(sizes, 1, largestCodeSize + 1, symbol);
          if codeOffset >= |symbols| {
            return false;
          }
          FillStep(symbols, sizes, 1, largestCodeSize + 1, symbol);
          offsets := offsets[codeSize := offsets[codeSize] + 1];
          symbols := symbols[codeOffset := symbol % 65536];
        } else {
          FillSkip(symbols, sizes, 1, largestCodeSize + 1, symbol);
        }
      }
      FilledIsOrder(symbols, sizes, 1, largestCodeSize + 1);
      OrderLength(sizes, 1, largestCodeSize + 1);
      ok := true;
    }

    /**
     * Succeeds exactly on the acceptable code sizes of which the table can hold the symbols, and then holds their
     * canonical code.
     */
    method Build(sizes: seq<Byte>) returns (ok: bool)
      requires WellFormed()
      modifies this
      ensures WellFormed() && |symbols| == old(|symbols|)
      ensures ok <==> Acceptable(sizes, largestCodeSize) && Below(sizes, 1, largestCodeSize + 1) <= |symbols|
      ensures |sizes| <= |symbols| ==> (ok <==> Acceptable(sizes, largestCodeSize))
      ensures ok ==> Built() && codeSizes == sizes
    {
      BelowBound(sizes, 1, largestCodeSize + 1);
      if |sizes| > 65535 {
        return false;
      }
      var counted := CountSizes(sizes);
      if !counted {
        return false;
      }
      AllZero(sizes);
      if codeSizeCounts[0] == |sizes| {
        return false;
      }
      var fits := CheckSubscription(sizes);
      if !fits {
        return false;
      }
      var offsets := SymbolOffsets(sizes);
      ok := FillSymbols(sizes, offsets);
      if ok {
        codeSizes := sizes;
      }
    }

    /** Reads one code bit by bit. */
    method DecodeSymbol(bitstream: Bitstream) returns (r: Option<nat>)
      requires Built() && bitstream.Valid()
      modifies bitstream.Reader()
      ensures bitstream.Valid() && bitstream.Source() == old(bitstream.Source())
      ensures r == Decode(codeSizes, bitstream.Source(), old(bitstream.Position()))
      ensures bitstream.Position() ==
              old(bitstream.Position()) + if r.Some? then codeSizes[r.value] else largestCodeSize
    {
      hide Acceptable, Filled, MsbValue, FirstCode, Below, Count, Decode, NoCodeBelow, BitOr, Pow2, Value,
        Bitstream.Valid, Bitstream.Source, Bitstream.Position;
      ghost var s, pos := bitstream.Source(), bitstream.Position();
      var firstHuffmanCode := 0;
      var huffmanCode := 0;
      var firstIndex := 0;
      NothingRead(codeSizes, s, pos);
      for bitIndex := 1 to largestCodeSize + 1
        invariant bitstream.Valid() && bitstream.Source() == s && bitstream.Position() == pos + bitIndex - 1
        invariant huffmanCode == MsbValue(s, pos, bitIndex - 1)
        invariant firstHuffmanCode == FirstCode(codeSizes, bitIndex)
        invariant firstIndex == Below(codeSizes, 1, bitIndex)
        invariant firstHuffmanCode <= 2 * huffmanCode
        invariant NoCodeBelow(codeSizes, s, pos, bitIndex)
      {
        var bit := bitstream.GetValue(1);
        OneBit(bitstream.Order(), s, pos + bitIndex - 1);
        AppendBit(huffmanCode, bit);
        huffmanCode := BitOr(2 * huffmanCode, bit);
        NextSize(codeSizes, s, pos, bitIndex);
        var codeSizeCount := codeSizeCounts[bitIndex];
        if huffmanCode - codeSizeCount < firstHuffmanCode {
          HitSymbol(symbols, codeSizes, largestCodeSize, s, pos, bitIndex);
          var symbolIndex := firstIndex + (huffmanCode - firstHuffmanCode);
          return Some(symbols[symbolIndex]);
        }
        MissStep(codeSizes, largestCodeSize, s, pos, bitIndex);
        firstHuffmanCode := 2 * (firstHuffmanCode + codeSizeCount);
        firstIndex := firstIndex + codeSizeCount;
      }
      NothingFits(codeSizes, largestCodeSize, s, pos);
      r := None;
    }
  }

  lemma NothingRead(sizes: seq<nat>, s: seq<Bit>, pos: nat)
    ensures MsbValue(s, pos, 0) == 0 && FirstCode(sizes, 1) == 0 && Below(sizes, 1, 1) == 0
    ensures NoCodeBelow(sizes, s, pos, 1)
  {
  }

  lemma AppendBit(code: nat, bit: Bit)
    ensures BitOr(2 * code, bit) == 2 * code + bit
  {
    assert Shl(code, 1) == 2 * Shl(code, 0);
    assert Pow2(1) == 2 * Pow2(0);
    OrDisjoint(bit, code, 1);
  }

  /** All sizes are zero exactly when the zero sizes are as many as there are sizes. */
  lemma {:induction false} AllZero(sizes: seq<nat>)
    ensures Count(sizes, 0) == |sizes| <==> !exists i :: 0 <= i < |sizes| && sizes[i] != 0
  {
    if |sizes| > 0 {
      var n := |sizes| - 1;
      AllZero(sizes[..n]);
      CountBound(sizes[..n], 0);
      if exists i :: 0 <= i < |sizes| && sizes[i] != 0 {
        var i :| 0 <= i < |sizes| && sizes[i] != 0;
        assert i < n ==> sizes[..n][i] != 0;
      } else {
        assert sizes[n] == 0;
      }
    }
  }
}
