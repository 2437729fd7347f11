/** The DEFLATE decompressor. */
module Deflate {
  import opened Options
  import opened Words
  import opened Bits
  import opened Bitstreams
  import opened DeflateBitstreams
  import opened HuffmanCodes
  import opened Huffman
  import opened Lz77
  import opened DeflateFormat
  import opened DeflateTrees

  // ---- Compressed blocks ----

  method ReadMatch(bitstream: DeflateBitstream, distancesTree: HuffmanTree, symbol: nat)
    returns (ok: bool, length: nat, distance: nat)
    requires bitstream.Valid() && 257 <= symbol < 286
    requires distancesTree.Built() && |distancesTree.codeSizes| <= 30
    modifies bitstream
    ensures bitstream.Valid()
    ensures var m := MatchAt(distancesTree.codeSizes, bitstream.Source(), old(bitstream.position), symbol);
      && ok == m.Some?
      && (ok ==> m.value == Match(length, distance, bitstream.position))
  {
    hide DeflateBitstream.Valid, DeflateBitstream.Source, LsbValue, Decode, LengthBase, LengthExtra, DistanceBase,
         DistanceExtra, HuffmanTree.Built;
    var k := symbol - 257;
    var extraBits := bitstream.GetValue(LengthExtra(k));
    length, distance := LengthBase(k) + extraBits, 0;
    var d := distancesTree.DecodeSymbol(OfDeflate(bitstream));
    ok := d.Some?;
    if ok {
      extraBits := bitstream.GetValue(DistanceExtra(d.value));
      distance := DistanceBase(d.value) + extraBits;
    }
  }

  method DecompressCompressedBlock(bitstream: DeflateBitstream, literalsTree: HuffmanTree, distancesTree: HuffmanTree,
                                   output: array<Byte>, offset: nat, ghost c: Codes)
    returns (ok: bool, endOffset: nat)
    requires bitstream.Valid() && offset <= output.Length
    requires |c.literals| <= 288 && |c.distances| <= 30 && Holds(literalsTree, c.literals) && Holds(distancesTree, c.distances)
    modifies bitstream, output
    ensures bitstream.Valid()
    ensures var spec := CompressedBlock(c, bitstream.Source(), old(bitstream.position), old(output[..offset]), output.Length);
      && ok == spec.Some?
      && (ok ==> bitstream.position == spec.value.1 && endOffset == |spec.value.0| && Written(output, spec.value.0))
  {
    hide DeflateBitstream.Valid, DeflateBitstream.Source, Decode, MatchAt, CompressedBlock, CopyMatch, HuffmanTree.Built;
    ghost var s, pos, start := bitstream.Source(), bitstream.position, output[..offset];
    ghost var all := CompressedBlock(c, s, pos, start, output.Length);
    ghost var out: seq<Byte> := start;
    endOffset := offset;
    while true
      invariant bitstream.Valid() && bitstream.Source() == s && |out| == endOffset && Written(output, out)
      invariant Holds(literalsTree, c.literals) && Holds(distancesTree, c.distances)
      invariant all == CompressedBlock(c, s, bitstream.position, out, output.Length)
      decreases output.Length - endOffset
    {
      BlockCases(c, s, bitstream.position, out, output.Length);
      var decoded := literalsTree.DecodeSymbol(OfDeflate(bitstream));
      if decoded.None? {
        return false, offset;
      }
      var symbol := decoded.value;
      if symbol == END_OF_BLOCK {
        return true, endOffset;
      }
      if symbol < 256 {
        if endOffset >= output.Length {
          return false, offset;
        }
        output[endOffset] := symbol;
        out := out + [symbol];
        endOffset := endOffset + 1;
      } else if symbol < 286 {
        var found, length, distance := ReadMatch(bitstream, distancesTree, symbol);
        if !found || distance > endOffset || length > output.Length - endOffset {
          return false, offset;
        }
        AppendMatch(output, endOffset, distance, length, out);
        out := CopyMatch(out, distance, length);
        endOffset := endOffset + length;
      } else {
        return false, offset;
      }
    }
  }

  // ---- Stored blocks ----

  /** The two halves of the 32 bits in front of a stored block agree exactly when they are complements. */
  lemma StoredSizes(s: seq<Bit>, pos: nat)
    ensures var v := LsbValue(s, pos, 32);
      && BitAnd(v, 0xffff) == LsbValue(s, pos, 16)
      && (BitAnd(v, 0xffff) == BitXor(Shr(v, 16), 0xffff) <==>
          LsbValue(s, pos, 16) + LsbValue(s, pos + 16, 16) == 0xffff)
  {
    hide LsbValue, BitAnd, BitXor, Shr, Low;
    Pow2Table();
    var v := LsbValue(s, pos, 32);
    LsbSplit(s, pos, 16, 16);
    AndMask(v, 16);
    Split(LsbValue(s, pos + 16, 16), LsbValue(s, pos, 16), 16);
    XorMask(LsbValue(s, pos + 16, 16), 16);
  }

  /** Skips to the next byte boundary, where the buffer is empty. */
  method AlignToByte(bitstream: DeflateBitstream)
    requires bitstream.Valid()
    modifies bitstream
    ensures bitstream.Valid() && bitstream.position == 8 * ((old(bitstream.position) + 7) / 8)
  {
    hide LsbValue, BitAnd, BitsOf;
    Pow2Table();
    AndMask(bitstream.numberOfBits, 3);
    LowSmall(bitstream.numberOfBits, 3);
    var skipBits := BitAnd(bitstream.numberOfBits, 0x07);
    if skipBits > 0 {
      bitstream.SkipBits(skipBits);
    }
  }

  /** Copies whole bytes from a byte boundary; the flushed buffer was empty. */
  method CopyStored(bitstream: DeflateBitstream, size: nat, output: array<Byte>, offset: nat) returns (ok: bool)
    requires bitstream.Valid() && bitstream.position % 8 == 0 && size > 0 && offset <= output.Length
    modifies bitstream, output
    ensures bitstream.Valid()
    ensures var from := old(bitstream.position) / 8;
      && (ok <==> from + size <= |bitstream.Payload()| && offset + size <= output.Length)
      && (ok ==> bitstream.position == 8 * (from + size)
                 && Written(output, old(output[..offset]) + bitstream.Payload()[from..from + size]))
  {
    hide DeflateBitstream.Valid, BitsOf, LsbValue;
    AtBoundary(bitstream);
    ghost var from, before, bytes := bitstream.position / 8, output[..], bitstream.Payload();
    ghost var start := bitstream.dataOffset;
    ok := bitstream.CopyBytes(size, output, offset);
    if ok {
      assert bytes[from..from + size] == bitstream.data[start..start + size];
      WrittenParts(before, bitstream.data[start..start + size], offset, output[..]);
      assert forall i :: 0 <= i < output.Length ==> output[i] == output[..][i];
    }
  }

  /** A string made of a start, a middle and the rest, place by place. */
  lemma WrittenParts(before: seq<Byte>, bytes: seq<Byte>, offset: nat, after: seq<Byte>)
    requires offset + |bytes| <= |before| && after == before[..offset] + bytes + before[offset + |bytes|..]
    ensures |after| == |before|
    ensures forall i :: 0 <= i < offset + |bytes| ==> after[i] == (before[..offset] + bytes)[i]
    ensures forall i :: offset + |bytes| <= i < |before| ==> after[i] == before[i]
  {
  }

  method DecompressStoredBlock(bitstream: DeflateBitstream, output: array<Byte>, offset: nat)
    returns (ok: bool, endOffset: nat)
    requires bitstream.Valid() && offset <= output.Length
    modifies bitstream, output
    ensures bitstream.Valid()
    ensures var spec := StoredBlock(bitstream.Payload(), old(bitstream.position), old(output[..offset]), output.Length);
      && ok == spec.Some?
      && (ok ==> bitstream.position == spec.value.1 && endOffset == |spec.value.0| && Written(output, spec.value.0))
  {
    hide LsbValue, BitAnd, BitXor, Shr, BitsOf, DeflateBitstream.Valid, DeflateBitstream.Payload, Pow2;
    endOffset := offset;
    AlignToByte(bitstream);
    StoredSizes(bitstream.Source(), bitstream.position);
    var value := bitstream.GetValue(32);
    var blockSize := BitAnd(value, 0xffff);
    var blockSizeCopy := BitXor(Shr(value, 16), 0xffff);
    ok := blockSize == blockSizeCopy;
    if ok && blockSize > 0 {
      ok := CopyStored(bitstream, blockSize, output, offset);
      endOffset := offset + blockSize;
    }
  }

  /** At a byte boundary the buffer is empty and the next input byte is the next unread one. */
  lemma AtBoundary(bitstream: DeflateBitstream)
    requires bitstream.Valid() && bitstream.position % 8 == 0
    ensures bitstream.numberOfBits == 0 && bitstream.start <= |bitstream.data|
    ensures bitstream.dataOffset == bitstream.InputOffset(bitstream.position / 8)
  {
    hide LsbValue, BitsOf;
  }

  lemma InputLeft(bitstream: DeflateBitstream)
    requires bitstream.Valid()
    ensures bitstream.dataOffset < |bitstream.data| <==> MoreInput(|bitstream.Payload()|, bitstream.position)
  {
    hide LsbValue, BitsOf;
  }

  class DeflateContext {
    const fixedLiteralsTree: HuffmanTree
    const fixedDistancesTree: HuffmanTree
    var fixedTreesBuilt: bool
    var uncompressedDataSize: nat

    ghost predicate Valid()
      reads this, fixedLiteralsTree, fixedDistancesTree
    {
      && fixedLiteralsTree != fixedDistancesTree
      && fixedLiteralsTree.WellFormed() && fixedLiteralsTree.largestCodeSize == LARGEST
      && |fixedLiteralsTree.symbols| == 288
      && fixedDistancesTree.WellFormed() && fixedDistancesTree.largestCodeSize == LARGEST
      && |fixedDistancesTree.symbols| == 30
      && (fixedTreesBuilt ==> Holds(fixedLiteralsTree, FixedLiterals()) && Holds(fixedDistancesTree, FixedDistances()))
    }

    constructor ()
      ensures Valid() && fresh(fixedLiteralsTree) && fresh(fixedDistancesTree)
    {
      fixedLiteralsTree := new HuffmanTree(288, LARGEST);
      fixedDistancesTree := new HuffmanTree(30, LARGEST);
      fixedTreesBuilt := false;
      uncompressedDataSize := 0;
    }

    /** Building the fixed trees cannot fail. */
    method BuildFixedTrees() returns (ok: bool)
      requires Valid()
      modifies this`fixedTreesBuilt, fixedLiteralsTree, fixedDistancesTree
      ensures Valid() && ok && fixedTreesBuilt
    {
      hide Acceptable, HuffmanTree.Built, FixedLiterals, FixedDistances;
      FixedLiteralsAcceptable();
      FixedDistancesAcceptable();
      var codeSizes := FixedCodeSizes();
      ok := fixedLiteralsTree.Build(codeSizes[..288]);
      var built := fixedDistancesTree.Build(codeSizes[288..]);
      fixedTreesBuilt := true;
    }

    /** One block of any type. */
    method DecompressBlock(bitstream: DeflateBitstream, blockType: nat, output: array<Byte>, offset: nat)
      returns (ok: bool, endOffset: nat)
      requires Valid() && bitstream.Valid() && offset <= output.Length
      modifies this`fixedTreesBuilt, fixedLiteralsTree, fixedDistancesTree, bitstream, output
      ensures Valid() && bitstream.Valid()
      ensures var spec := BlockAt(bitstream.Payload(), blockType, old(bitstream.position), old(output[..offset]), output.Length);
        && ok == spec.Some?
        && (ok ==> bitstream.position == spec.value.1 && endOffset == |spec.value.0| && Written(output, spec.value.0))
    {
      hide DeflateBitstream.Valid, DeflateBitstream.Payload, BitsOf, StoredBlock, CompressedBlock, DynamicCodes, HuffmanTree.Built,
           FixedLiterals, FixedDistances, Acceptable;
      ok, endOffset := false, offset;
      if blockType == 0 {
        ok, endOffset := DecompressStoredBlock(bitstream, output, offset);
      } else if blockType == 1 {
        if !fixedTreesBuilt {
          var built := BuildFixedTrees();
        }
        ok, endOffset := DecompressCompressedBlock(bitstream, fixedLiteralsTree, fixedDistancesTree, output, offset,
                                                   Codes(FixedLiterals(), FixedDistances()));
      } else if blockType == 2 {
        var literalsTree := new HuffmanTree(288, LARGEST);
        var distancesTree := new HuffmanTree(30, LARGEST);
        var built := BuildDynamicTrees(bitstream, literalsTree, distancesTree);
        if built {
          ok, endOffset := DecompressCompressedBlock(bitstream, literalsTree, distancesTree, output, offset,
                                                     Codes(literalsTree.codeSizes, distancesTree.codeSizes));
        }
      }
    }

    /** The loop over the blocks. */
    method DecompressBitstream(bitstream: DeflateBitstream, output: array<Byte>) returns (ok: bool)
      requires Valid() && bitstream.Valid()
      modifies this, fixedLiteralsTree, fixedDistancesTree, bitstream, output
      ensures Valid() && bitstream.Valid()
      ensures var spec := Blocks(bitstream.Payload(), old(bitstream.position), [], output.Length);
        && ok == spec.Some?
        && (ok ==> bitstream.position == spec.value.1 && uncompressedDataSize == |spec.value.0|
                   && Written(output, spec.value.0))
    {
      hide DeflateBitstream.Valid, DeflateBitstream.Payload, BitsOf, BlockAt, Blocks, LsbValue, HuffmanTree.Built, BitAnd, Shr,
           FixedLiterals, FixedDistances, MoreInput;
      ghost var data := bitstream.Payload();
      ghost var all := Blocks(data, bitstream.position, [], output.Length);
      ghost var out: seq<Byte> := [];
      var offset: nat := 0;
      InputLeft(bitstream);
      while bitstream.dataOffset < |bitstream.data|
        invariant Valid() && bitstream.Valid() && bitstream.Payload() == data
        invariant bitstream.dataOffset < |bitstream.data| <==> MoreInput(|data|, bitstream.position)
        invariant |out| == offset && Written(output, out)
        invariant all == Blocks(data, bitstream.position, out, output.Length)
        decreases 8 * |data| - bitstream.position
      {
        BlocksCases(data, bitstream.position, out, output.Length);
        ghost var pos := bitstream.position;
        var header := bitstream.GetValue(3);
        LowestBit(header);
        var lastBlockFlag := BitAnd(header, 1);
        var blockType := Shr(header, 1);
        assert output[..offset] == out;
        var decompressed;
        decompressed, offset := DecompressBlock(bitstream, blockType, output, offset);
        if !decompressed {
          return false;
        }
        out := BlockAt(data, header / 2, pos + 3, out, output.Length).value.0;
        InputLeft(bitstream);
        if lastBlockFlag != 0 {
          uncompressedDataSize := offset;
          return true;
        }
      }
      BlocksCases(data, bitstream.position, out, output.Length);
      uncompressedDataSize := offset;
      ok := true;
    }

    /** Succeeds exactly when the data inflates within the buffer, and then holds the result. */
    method Decompress(compressedData: seq<Byte>, output: array<Byte>) returns (ok: bool)
      requires Valid()
      modifies this, fixedLiteralsTree, fixedDistancesTree, output
      ensures Valid()
      ensures var spec := Inflated(compressedData, output.Length);
        && ok == spec.Some?
        && (ok ==> uncompressedDataSize == |spec.value| && output[..] == spec.value + old(output[|spec.value|..]))
    {
      hide DeflateBitstream.Valid, Blocks, HuffmanTree.Built, FixedLiterals, FixedDistances;
      var bitstream := new DeflateBitstream(compressedData, 0);
      assert bitstream.Payload() == compressedData;
      ok := DecompressBitstream(bitstream, output);
    }
  }
}
