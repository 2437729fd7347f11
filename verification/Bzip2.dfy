/** The bzip2 decompressor. */
module Bzip2 {
  import opened Options
  import opened Words
  import opened Bits
  import opened Bitstreams
  import opened Bzip2Bitstreams
  import opened Huffman
  import opened Crc32
  import opened Crc32Contexts
  import opened Bzip2Selectors
  import opened Bzip2Trees
  import opened Bzip2SymbolStack
  import opened Bzip2Transform
  import opened Bzip2BlockData
  import opened Bzip2Format

  lemma SignatureValue(s: seq<Bit>, pos: nat)
    ensures BitOr(Shl(MsbValue(s, pos, 24), 24), MsbValue(s, pos + 24, 24)) == MsbValue(s, pos, 48)
  {
    hide BitOr, Shl, MsbValue;
    MsbSplit(s, pos, 24, 24);
    OrDisjoint(MsbValue(s, pos + 24, 24), MsbValue(s, pos, 24), 24);
  }

  method ReadHeader(bitstream: Bzip2Bitstream) returns (r: Option<Header>)
    requires bitstream.Valid()
    modifies bitstream
    ensures bitstream.Valid()
    ensures var spec := HeaderAt(bitstream.Source(), old(bitstream.position));
      && r.Some? == spec.Some?
      && (r.Some? ==> r.value == spec.value.0 && bitstream.position == spec.value.1)
  {
    hide Bzip2Bitstream.Valid, Bzip2Bitstream.Source, MsbValue, BitOr, Shl, Pow2;
    SignatureValue(bitstream.Source(), bitstream.position);
    var high := bitstream.GetValue(24);
    var low := bitstream.GetValue(24);
    var signature := BitOr(Shl(high, 24), low);
    if signature == END_SIGNATURE {
      var checksum := bitstream.GetValue(32);
      r := Some(EndHeader(checksum));
    } else if signature == BLOCK_SIGNATURE {
      var checksum := bitstream.GetValue(32);
      var randomizedFlag := bitstream.GetValue(1);
      var origin := bitstream.GetValue(24);
      r := Some(BlockHeader(checksum, origin));
    } else {
      r := None;
    }
  }

  lemma NextTree(done: seq<seq<nat>>, s: seq<Bit>, pos: nat, trees: nat, count: nat)
    requires trees > 0
    ensures var first := Tree(s, pos, count);
      if first.None? then After(done, TreesAt(s, pos, trees, count)) == None
      else After(done, TreesAt(s, pos, trees, count)) ==
           After(done + [first.value.0], TreesAt(s, first.value.1, trees - 1, count))
  {
    hide Tree;
    var first := Tree(s, pos, count);
    if first.Some? {
      AfterAfter(done, [first.value.0], TreesAt(s, first.value.1, trees - 1, count));
    }
  }

  lemma NoTrees(done: seq<seq<nat>>, s: seq<Bit>, pos: nat, count: nat)
    ensures After(done, TreesAt(s, pos, 0, count)) == Some((done, pos))
  {
    AfterEnd(done, pos);
  }

  method ReadTrees(bitstream: Bzip2Bitstream, numberOfTrees: nat, numberOfSymbols: nat)
    returns (ok: bool, trees: seq<HuffmanTree>, ghost sizes: seq<seq<nat>>)
    requires bitstream.Valid() && 2 <= numberOfSymbols <= 258
    modifies bitstream
    ensures bitstream.Valid()
    ensures var spec := TreesAt(bitstream.Source(), old(bitstream.position), numberOfTrees, numberOfSymbols);
      && ok == spec.Some?
      && (ok ==> sizes == spec.value.0 && bitstream.position == spec.value.1)
    ensures ok ==> |trees| == |sizes| && forall t :: 0 <= t < |trees| ==>
      trees[t].Built() && trees[t].codeSizes == sizes[t] && trees[t].largestCodeSize == LARGEST
  {
    hide Bzip2Bitstream.Valid, Bzip2Bitstream.Source, Tree, TreesAt, After, HuffmanTree.Built;
    ghost var s := bitstream.Source();
    ghost var all := TreesAt(s, bitstream.position, numberOfTrees, numberOfSymbols);
    trees, sizes := [], [];
    AfterNothing(all);
    for i := 0 to numberOfTrees
      invariant bitstream.Valid() && bitstream.Source() == s
      invariant |trees| == |sizes| == i
      invariant forall t :: 0 <= t < i ==>
        trees[t].Built() && trees[t].codeSizes == sizes[t] && trees[t].largestCodeSize == LARGEST
      invariant all == After(sizes, TreesAt(s, bitstream.position, numberOfTrees - i, numberOfSymbols))
    {
      NextTree(sizes, s, bitstream.position, numberOfTrees - i, numberOfSymbols);
      var tree := new HuffmanTree(numberOfSymbols, LARGEST);
      var built := ReadHuffmanTree(bitstream, tree, numberOfSymbols);
      if !built {
        return false, trees, sizes;
      }
      trees := trees + [tree];
      sizes := sizes + [tree.codeSizes];
    }
    NoTrees(sizes, s, bitstream.position, numberOfSymbols);
    ok := true;
  }

  /** Everything of a block after its header. */
  method ReadContent(bitstream: Bzip2Bitstream, selectors: array<Byte>, symbolStack: array<Byte>, blockData: array<Byte>)
    returns (r: Option<nat>)
    requires bitstream.Valid()
    requires selectors.Length == SELECTOR_SLOTS && symbolStack.Length == 256 && blockData.Length == BLOCK_SIZE
    requires symbolStack != blockData && symbolStack != selectors && blockData != selectors
    modifies bitstream, selectors, symbolStack, blockData
    ensures bitstream.Valid()
    ensures var spec := ContentAt(bitstream.Source(), old(bitstream.position), old(selectors[..]));
      && r.Some? == spec.Some?
      && (r.Some? ==>
            && r.value == |spec.value.column| && blockData[..r.value] == spec.value.column
            && bitstream.position == spec.value.end && selectors[..] == spec.value.selectors)
  {
    hide Bzip2Bitstream.Valid, Bzip2Bitstream.Source, InUse, Selectors, TreesAt, Block, MsbValue, HuffmanTree.Built;
    ghost var s, before := bitstream.Source(), selectors[..];
    var numberOfSymbols := ReadSymbolStack(bitstream, symbolStack);
    CountsFit(s, bitstream.position);
    var numberOfTrees := bitstream.GetValue(3);
    var numberOfSelectors := bitstream.GetValue(15);
    var read := ReadSelectors(bitstream, selectors, numberOfSelectors, numberOfTrees);
    if !read {
      return None;
    }
    assert selectors[..] == selectors[..numberOfSelectors] + before[numberOfSelectors..];
    var ok, trees, sizes := ReadTrees(bitstream, numberOfTrees, numberOfSymbols);
    if !ok {
      return None;
    }
    ghost var c := Coding(sizes, selectors[..], numberOfSelectors, numberOfSymbols - 1);
    assert selectors[0] == selectors[..][0];
    ghost var decodedSymbols;
    r, decodedSymbols := ReadBlockData(bitstream, trees, selectors, numberOfSelectors, symbolStack, numberOfSymbols, blockData, c);
  }

  /** Whether bytes of the input are left, in terms of the bits read. */
  lemma InputLeft(bitstream: Bzip2Bitstream)
    requires bitstream.Valid()
    ensures bitstream.dataOffset < |bitstream.data| <==> MoreInput(|bitstream.Source()| / 8, bitstream.position)
  {
    hide BitsOf, MsbValue;
  }

  class Bzip2Context {
    var uncompressedDataSize: nat

    constructor ()
      ensures uncompressedDataSize == 0
    {
      uncompressedDataSize := 0;
    }

    /** Reads a block and writes its output. */
    method DecompressBlock(bitstream: Bzip2Bitstream, origin: nat, selectors: array<Byte>, symbolStack: array<Byte>,
                           blockData: array<Byte>, output: array<Byte>, offset: nat) returns (ok: bool, endOffset: nat)
      requires bitstream.Valid() && offset <= output.Length
      requires selectors.Length == SELECTOR_SLOTS && symbolStack.Length == 256 && blockData.Length == BLOCK_SIZE
      requires symbolStack != blockData && symbolStack != selectors && blockData != selectors
      requires output != selectors && output != symbolStack && output != blockData
      modifies bitstream, selectors, symbolStack, blockData, output
      ensures bitstream.Valid()
      ensures var content := ContentAt(bitstream.Source(), old(bitstream.position), old(selectors[..]));
        && (ok <==> origin < BLOCK_SIZE && content.Some?
                    && offset + |Output(content.value.column, origin)| <= output.Length)
        && (ok ==>
              && bitstream.position == content.value.end && selectors[..] == content.value.selectors
              && endOffset == offset + |Output(content.value.column, origin)|
              && output[..] == old(output[..offset]) + Output(content.value.column, origin) + old(output[endOffset..]))
    {
      hide Bzip2Bitstream.Valid, Bzip2Bitstream.Source, ContentAt, Output;
      ok, endOffset := false, offset;
      if origin >= BLOCK_SIZE {
        return;
      }
      var size := ReadContent(bitstream, selectors, symbolStack, blockData);
      if size.None? {
        return;
      }
      ok, endOffset := ReverseTransform(blockData, size.value, origin, output, offset);
    }

    /** The loop over the blocks. */
    method DecompressBlocks(bitstream: Bzip2Bitstream, output: array<Byte>) returns (ok: bool, offset: nat, checksum: nat)
      requires bitstream.Valid() && bitstream.position == 0
      modifies bitstream, output
      ensures var spec := Blocks(bitstream.Source(), 0, [], output.Length, NoSelectorsYet(), 0);
        && ok == spec.Some?
        && (ok ==> offset == |spec.value.0| <= output.Length && checksum == spec.value.1
                   && output[..] == spec.value.0 + old(output[offset..]))
    {
      hide Bzip2Bitstream.Valid, Bzip2Bitstream.Source, Blocks, ContentAt, HeaderAt, Output, MoreInput;
      ghost var s := bitstream.Source();
      ghost var all := Blocks(s, 0, [], output.Length, NoSelectorsYet(), 0);
      var blockData := new Byte[BLOCK_SIZE](_ => 0);
      var selectors := new Byte[SELECTOR_SLOTS](_ => 0);
      var symbolStack := new Byte[256](_ => 0);
      assert selectors[..] == NoSelectorsYet();
      ghost var out: seq<Byte> := [];
      offset, checksum := 0, 0;
      InputLeft(bitstream);
      while bitstream.dataOffset < |bitstream.data|
        invariant bitstream.Valid() && bitstream.Source() == s
        invariant bitstream.dataOffset < |bitstream.data| <==> MoreInput(|s| / 8, bitstream.position)
        invariant |out| == offset <= output.Length
        invariant forall i :: 0 <= i < offset ==> output[i] == out[i]
        invariant forall i :: offset <= i < output.Length ==> output[i] == old(output[i])
        invariant all == Blocks(s, bitstream.position, out, output.Length, selectors[..], checksum)
        decreases |s| - bitstream.position
      {
        ghost var pos, before := bitstream.position, selectors[..];
        BlocksCases(s, pos, out, output.Length, before, checksum);
        var header := ReadHeader(bitstream);
        if header.None? {
          return false, offset, checksum;
        }
        checksum := header.value.checksum;
        if header.value.EndHeader? {
          return true, offset, checksum;
        }
        var fits;
        fits, offset := DecompressBlock(bitstream, header.value.origin, selectors, symbolStack, blockData, output, offset);
        if !fits {
          return false, offset, checksum;
        }
        assert output[..offset] == out + Output(ContentAt(s, HeaderAt(s, pos).value.1, before).value.column, header.value.origin);
        out := out + Output(ContentAt(s, HeaderAt(s, pos).value.1, before).value.column, header.value.origin);
        InputLeft(bitstream);
      }
      BlocksCases(s, bitstream.position, out, output.Length, selectors[..], checksum);
      ok := true;
    }

    /** Succeeds exactly when the data is a well-formed stream that fits, and then holds its content. */
    method Decompress(compressedData: seq<Byte>, output: array<Byte>) returns (ok: bool)
      modifies this, output
      ensures var spec := Decompressed(compressedData, output.Length);
        && ok == spec.Some?
        && (ok ==> uncompressedDataSize == |spec.value| <= output.Length
                   && output[..] == spec.value + old(output[|spec.value|..]))
    {
      hide Blocks, Remainder, Bzip2Bitstream.Valid;
      if |compressedData| < 14 || !StreamHeader(compressedData) {
        return false;
      }
      var bitstream := new Bzip2Bitstream(compressedData, 4);
      var read, offset, checksum := DecompressBlocks(bitstream, output);
      if !read {
        return false;
      }
      var crc32 := new Crc32Context(POLYNOMIAL, 0);
      crc32.Update(output[..offset]);
      assert [] + output[..offset] == output[..offset];
      var calculated := crc32.Finalize();
      if checksum != calculated as nat {
        return false;
      }
      uncompressedDataSize := offset;
      ok := true;
    }
  }

  lemma BlocksCases(s: seq<Bit>, pos: nat, out: seq<Byte>, capacity: nat, selectors: seq<Byte>, checksum: nat)
    requires |selectors| == SELECTOR_SLOTS
    ensures MoreInput(|s| / 8, pos) ==> pos < |s|
    ensures !MoreInput(|s| / 8, pos) ==> Blocks(s, pos, out, capacity, selectors, checksum) == Some((out, checksum))
    ensures MoreInput(|s| / 8, pos) && HeaderAt(s, pos).None? ==> Blocks(s, pos, out, capacity, selectors, checksum) == None
    ensures MoreInput(|s| / 8, pos) && HeaderAt(s, pos).Some? && HeaderAt(s, pos).value.0.EndHeader? ==>
      Blocks(s, pos, out, capacity, selectors, checksum) == Some((out, HeaderAt(s, pos).value.0.checksum))
    ensures MoreInput(|s| / 8, pos) && HeaderAt(s, pos).Some? && HeaderAt(s, pos).value.0.BlockHeader? ==>
      var (header, next) := HeaderAt(s, pos).value;
      var content := ContentAt(s, next, selectors);
      && pos < next
      && (if header.origin < BLOCK_SIZE && content.Some? && |out| + |Output(content.value.column, header.origin)| <= capacity
          then Blocks(s, pos, out, capacity, selectors, checksum) ==
               Blocks(s, content.value.end, out + Output(content.value.column, header.origin), capacity,
                      content.value.selectors, header.checksum)
          else Blocks(s, pos, out, capacity, selectors, checksum) == None)
  {
    hide ContentAt, Output;
  }
}
