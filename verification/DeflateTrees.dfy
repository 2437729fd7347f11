/** Building the Huffman trees of DEFLATE blocks. */
module DeflateTrees {
  import opened Options
  import opened Words
  import opened Bits
  import opened Bitstreams
  import opened DeflateBitstreams
  import opened HuffmanCodes
  import opened Huffman
  import opened DeflateFormat

  /** The tree holds the given code. */
  ghost predicate Holds(tree: HuffmanTree, sizes: seq<nat>)
    reads tree
  {
    tree.Built() && tree.codeSizes == sizes && tree.largestCodeSize == LARGEST
  }

  /** The three counts that share the first 14 bits of a dynamic block. */
  lemma DynamicCounts(s: seq<Bit>, pos: nat)
    ensures var v := LsbValue(s, pos, 14);
      && BitAnd(v, 0x1f) == LsbValue(s, pos, 5)
      && BitAnd(Shr(v, 5), 0x1f) == LsbValue(s, pos + 5, 5)
      && Shr(Shr(v, 5), 5) == LsbValue(s, pos + 10, 4)
  {
    hide LsbValue, BitAnd, Shr, Low;
    Pow2Table();
    LsbSplit(s, pos, 5, 9);
    LsbSplit(s, pos + 5, 5, 4);
    AndMask(LsbValue(s, pos, 14), 5);
    Split(LsbValue(s, pos + 5, 9), LsbValue(s, pos, 5), 5);
    AndMask(LsbValue(s, pos + 5, 9), 5);
    Split(LsbValue(s, pos + 10, 4), LsbValue(s, pos + 5, 5), 5);
  }

  /** The first 19 sizes, of which `count` are stored; the array is the one that later takes all sizes. */
  method ReadCodeLengthSizes(bitstream: DeflateBitstream, count: nat) returns (codeSizes: seq<Byte>)
    requires bitstream.Valid() && count <= 19
    modifies bitstream
    ensures bitstream.Valid() && bitstream.position == old(bitstream.position) + 3 * count
    ensures |codeSizes| == 316
    ensures codeSizes[..19] == CodeLengthSizes(bitstream.Source(), old(bitstream.position), count)
  {
    hide DeflateBitstream.Valid, DeflateBitstream.Source, LsbValue, Pow2, SizePosition, SizeSymbol;
    ghost var s, pos := bitstream.Source(), bitstream.position;
    codeSizes := seq(316, _ => 0);
    Pow2Table();
    for j := 0 to count
      invariant bitstream.Valid() && bitstream.Source() == s && bitstream.position == pos + 3 * j && |codeSizes| == 316
      invariant forall i :: 0 <= i < 19 && SizePosition(i) < j ==> codeSizes[i] == LsbValue(s, pos + 3 * SizePosition(i), 3)
    {
      SizePositions(j);
      var value := bitstream.GetValue(3);
      codeSizes := codeSizes[SizeSymbol(j) := value];
      forall i | 0 <= i < 19 && SizePosition(i) == j ensures i == SizeSymbol(j) {
        SizePositions(i);
      }
    }
    codeSizes := ClearUnstored(codeSizes, count);
    forall i | 0 <= i < 19 ensures codeSizes[i] == CodeLengthSizes(s, pos, count)[i] {
    }
  }

  method ClearUnstored(stored: seq<Byte>, count: nat) returns (codeSizes: seq<Byte>)
    requires |stored| == 316 && count <= 19
    ensures |codeSizes| == 316
    ensures forall i :: 0 <= i < 19 ==> codeSizes[i] == if SizePosition(i) < count then stored[i] else 0
  {
    hide SizePosition, SizeSymbol;
    codeSizes := stored;
    for j := count to 19
      invariant |codeSizes| == 316
      invariant forall i :: 0 <= i < 19 ==> codeSizes[i] == if count <= SizePosition(i) < j then 0 else stored[i]
    {
      SizePositions(j);
      codeSizes := codeSizes[SizeSymbol(j) := 0];
      forall i | 0 <= i < 19 && SizePosition(i) == j ensures i == SizeSymbol(j) {
        SizePositions(i);
      }
    }
  }

  lemma SizesCases(lengths: seq<nat>, s: seq<Bit>, pos: nat, total: nat, done: seq<Byte>)
    requires |lengths| == 19 && |done| < total
    ensures var symbol := Decode(lengths, s, pos);
      var r := CodeSizes(lengths, s, pos, total, done);
      if symbol.None? then r == None
      else
        var next := pos + lengths[symbol.value];
        var run := RunOf(symbol.value, done, s, next);
        if run.None? || |done| + run.value.count > total then r == None
        else r == CodeSizes(lengths, s, next + run.value.extra, total, done + Sizes(run.value.size, run.value.count))
  {
    hide Decode, RunOf, Sizes;
  }

  /** Reads the extra bits of a code-length symbol. */
  method ReadRun(bitstream: DeflateBitstream, symbol: nat, previous: Byte, ghost done: seq<Byte>) returns (size: Byte, count: nat)
    requires bitstream.Valid() && symbol <= 18 && (symbol == 16 ==> |done| > 0 && previous == done[|done| - 1])
    modifies bitstream
    ensures bitstream.Valid()
    ensures var run := RunOf(symbol, done, bitstream.Source(), old(bitstream.position));
      run.Some? && run.value == Run(size, count, run.value.extra) &&
      bitstream.position == old(bitstream.position) + run.value.extra
  {
    hide DeflateBitstream.Valid, DeflateBitstream.Source, LsbValue;
    if symbol < 16 {
      size, count := symbol, 1;
    } else if symbol == 16 {
      var extra := bitstream.GetValue(2);
      size, count := previous, extra + 3;
    } else if symbol == 17 {
      var extra := bitstream.GetValue(3);
      size, count := 0, extra + 3;
    } else {
      var extra := bitstream.GetValue(7);
      size, count := 0, extra + 11;
    }
  }

  /** Overwrites a stretch of the code sizes. */
  method FillSizes(codeSizes: seq<Byte>, start: nat, size: Byte, count: nat) returns (r: seq<Byte>)
    requires start + count <= |codeSizes|
    ensures r == codeSizes[..start] + Sizes(size, count) + codeSizes[start + count..]
  {
    r := codeSizes;
    var index: nat := start;
    var timesToRepeat: nat := count;
    while timesToRepeat > 0
      invariant index + timesToRepeat == start + count && start <= index && |r| == |codeSizes|
      invariant forall i :: 0 <= i < start || index <= i < |r| ==> r[i] == codeSizes[i]
      invariant forall i :: start <= i < index ==> r[i] == size
    {
      r := r[index := size];
      index := index + 1;
      timesToRepeat := timesToRepeat - 1;
    }
  }

  /** Expands the run-length coded sizes over whatever the array held before. */
  method ExpandCodeSizes(bitstream: DeflateBitstream, codesTree: HuffmanTree, stale: seq<Byte>, total: nat)
    returns (ok: bool, codeSizes: seq<Byte>)
    requires bitstream.Valid() && codesTree.Built() && |codesTree.codeSizes| == 19 && total <= |stale|
    modifies bitstream
    ensures bitstream.Valid() && |codeSizes| == |stale|
    ensures var spec := CodeSizes(codesTree.codeSizes, bitstream.Source(), old(bitstream.position), total, []);
      && ok == spec.Some?
      && (ok ==> codeSizes[..total] == spec.value.0 && bitstream.position == spec.value.1)
  {
    hide DeflateBitstream.Valid, DeflateBitstream.Source, Decode, CodeSizes, RunOf, Sizes, HuffmanTree.Built;
    ghost var s, lengths := bitstream.Source(), codesTree.codeSizes;
    ghost var all := CodeSizes(lengths, s, bitstream.position, total, []);
    codeSizes := stale;
    var index := 0;
    while index < total
      invariant bitstream.Valid() && bitstream.Source() == s && codesTree.Built() && codesTree.codeSizes == lengths
      invariant index <= total <= |codeSizes| == |stale|
      invariant all == CodeSizes(lengths, s, bitstream.position, total, codeSizes[..index])
      decreases total - index
    {
      ghost var done := codeSizes[..index];
      SizesCases(lengths, s, bitstream.position, total, done);
      var decoded := codesTree.DecodeSymbol(OfDeflate(bitstream));
      if decoded.None? {
        return false, codeSizes;
      }
      if index == 0 && decoded.value == 16 {
        NothingToRepeat(s, bitstream.position);
        return false, codeSizes;
      }
      var size, count := ReadRun(bitstream, decoded.value, if index > 0 then codeSizes[index - 1] else 0, done);
      if index + count > total {
        return false, codeSizes;
      }
      RunNotEmpty(decoded.value, done, s, bitstream.position);
      codeSizes := FillSizes(codeSizes, index, size, count);
      index := index + count;
      assert codeSizes[..index] == done + Sizes(size, count);
    }
    AllSizes(lengths, s, bitstream.position, codeSizes[..total]);
    ok := true;
  }

  lemma AllSizes(lengths: seq<nat>, s: seq<Bit>, pos: nat, done: seq<Byte>)
    requires |lengths| == 19
    ensures CodeSizes(lengths, s, pos, |done|, done) == Some((done, pos))
  {
  }

  lemma NothingToRepeat(s: seq<Bit>, pos: nat)
    ensures RunOf(16, [], s, pos) == None
  {
  }

  lemma RunNotEmpty(symbol: nat, done: seq<Byte>, s: seq<Bit>, pos: nat)
    requires symbol <= 18
    ensures RunOf(symbol, done, s, pos).Some? ==> RunOf(symbol, done, s, pos).value.count >= 1
  {
  }

  /** Succeeds exactly when the bits describe a pair of codes, and builds it. */
  method BuildDynamicTrees(bitstream: DeflateBitstream, literalsTree: HuffmanTree, distancesTree: HuffmanTree)
    returns (ok: bool)
    requires bitstream.Valid() && literalsTree != distancesTree
    requires literalsTree.WellFormed() && literalsTree.largestCodeSize == LARGEST && |literalsTree.symbols| == 288
    requires distancesTree.WellFormed() && distancesTree.largestCodeSize == LARGEST && |distancesTree.symbols| == 30
    modifies bitstream, literalsTree, distancesTree
    ensures bitstream.Valid()
    ensures var spec := DynamicCodes(bitstream.Source(), old(bitstream.position));
      && ok == spec.Some?
      && (ok ==>
            && Holds(literalsTree, spec.value.0.literals) && Holds(distancesTree, spec.value.0.distances)
            && bitstream.position == spec.value.1)
  {
    hide DeflateBitstream.Valid, DeflateBitstream.Source, LsbValue, BitAnd, Shr, Pow2, Acceptable, CodeSizes, CodeLengthSizes,
         HuffmanTree.Built;
    ghost var s, pos := bitstream.Source(), bitstream.position;
    DynamicCounts(s, pos);
    Pow2Table();
    var value := bitstream.GetValue(14);
    var numberOfLiterals := BitAnd(value, 0x1f) + 257;
    if numberOfLiterals > 286 {
      return false;
    }
    value := Shr(value, 5);
    var numberOfDistances := BitAnd(value, 0x1f) + 1;
    if numberOfDistances > 30 {
      return false;
    }
    value := Shr(value, 5);
    var codeSizes := ReadCodeLengthSizes(bitstream, value + 4);
    var codesTree := new HuffmanTree(19, LARGEST);
    var built := codesTree.Build(codeSizes[..19]);
    if !built {
      return false;
    }
    var total := numberOfLiterals + numberOfDistances;
    var expanded;
    expanded, codeSizes := ExpandCodeSizes(bitstream, codesTree, codeSizes, total);
    if !expanded {
      return false;
    }
    assert codeSizes[..total][END_OF_BLOCK] == codeSizes[END_OF_BLOCK];
    if codeSizes[END_OF_BLOCK] == 0 {
      return false;
    }
    assert codeSizes[..total][..numberOfLiterals] == codeSizes[..numberOfLiterals];
    assert codeSizes[..total][numberOfLiterals..] == codeSizes[numberOfLiterals..total];
    built := literalsTree.Build(codeSizes[..numberOfLiterals]);
    if !built {
      return false;
    }
    ok := distancesTree.Build(codeSizes[numberOfLiterals..total]);
  }

  // ---- Fixed trees ----

  lemma FixedLiteralsAcceptable()
    ensures Acceptable(FixedLiterals(), LARGEST)
  {
    hide Kraft, Pow2;
    var f: seq<nat> := FixedLiterals();
    Pow2Table();
    KraftRun(f[..144], 0, 8, LARGEST);
    KraftRun(f[..256], 144, 9, LARGEST);
    KraftRun(f[..280], 256, 7, LARGEST);
    KraftRun(f, 280, 8, LARGEST);
    assert f[..144][..0] == [] && f[..256][..144] == f[..144] && f[..280][..256] == f[..256];
    NoSizes(LARGEST);
    assert f[0] != 0;
  }

  lemma FixedDistancesAcceptable()
    ensures Acceptable(FixedDistances(), LARGEST)
  {
    hide Kraft, Pow2;
    var f: seq<nat> := FixedDistances();
    Pow2Table();
    assert Pow2(10) == 1024 by { ShlPow2(8, 2); Shl2(Pow2(8)); }
    KraftRun(f, 0, 5, LARGEST);
    assert f[..0] == [];
    NoSizes(LARGEST);
    assert f[0] != 0;
  }

  lemma Shl2(x: nat)
    ensures Shl(x, 2) == 4 * x
  {
    assert Shl(x, 1) == 2 * Shl(x, 0);
  }

  /** The predefined code sizes of section 3.2.6 of RFC 1951. */
  method FixedCodeSizes() returns (codeSizes: seq<Byte>)
    ensures |codeSizes| == 318 && codeSizes[..288] == FixedLiterals() && codeSizes[288..] == FixedDistances()
  {
    codeSizes := seq(318, _ => 0);
    for symbol := 0 to 318
      invariant |codeSizes| == 318
      invariant forall i :: 0 <= i < symbol ==>
          codeSizes[i] == if i < 144 then 8 else if i < 256 then 9 else if i < 280 then 7 else if i < 288 then 8 else 5
    {
      var size: Byte := 5;
      if symbol < 144 {
        size := 8;
      } else if symbol < 256 {
        size := 9;
      } else if symbol < 280 {
        size := 7;
      } else if symbol < 288 {
        size := 8;
      }
      codeSizes := codeSizes[symbol := size];
    }
  }
}
