/** The symbols of a bzip2 block: Huffman decoding in groups of 50, zero runs and move-to-front. */
module Bzip2BlockData {
  import opened Options
  import opened Words
  import opened Bits
  import opened Bitstreams
  import opened Bzip2Bitstreams
  import opened HuffmanCodes
  import opened Huffman
  import opened MoveToFront
  import opened RunLength
  import opened ZeroRuns
  import opened Bzip2Selectors
  import opened Bzip2Transform
  import Bzip2Trees

  const GROUP: nat := 50

  /** How the symbols of a block are coded: the code sizes of every tree and the tree of every group. */
  datatype Coding = Coding(trees: seq<seq<nat>>, selectors: seq<Byte>, selectorCount: nat, endSymbol: nat) {

    ghost predicate Valid() {
      && selectorCount < |selectors|
      && endSymbol >= 1
      && (forall t :: 0 <= t < |trees| ==> |trees[t]| == endSymbol + 1)
    }

    /** The tree for symbol `index`, or none when the selectors ran out. */
    function TreeFor(index: nat, tree: nat): Option<nat>
      requires selectorCount < |selectors|
    {
      if index % GROUP != 0 then Some(tree)
      else if index / GROUP > selectorCount then None
      else Some(selectors[index / GROUP])
    }
  }

  /** The zero run that is still to be written. */
  function Pending(stack: seq<Byte>, digits: seq<nat>): seq<Byte> {
    Repeat(Top(stack), RunValue(digits))
  }

  /** The bytes that the symbols from pos on stand for, up to the end symbol, and the position after it. */
  ghost function Block(c: Coding, s: seq<Bit>, pos: nat, index: nat, tree: nat, stack: seq<Byte>, digits: seq<nat>)
    : (r: Option<(seq<Byte>, nat)>)
    requires c.Valid() && c.endSymbol == |stack| + 1 && index < GROUP * (c.selectorCount + 1)
    ensures r.Some? ==> r.value.1 >= pos
    decreases GROUP * (c.selectorCount + 1) - index
  {
    if tree >= |c.trees| then None
    else
      match Decode(c.trees[tree], s, pos)
      case None => None
      case Some(symbol) =>
        var next := pos + c.trees[tree][symbol];
        if symbol == c.endSymbol then
          Some((if c.endSymbol > 1 then Pending(stack, digits) else [], next))
        else
          match c.TreeFor(index + 1, tree)
          case None => None
          case Some(tree') =>
            if symbol < 2 then Block(c, s, next, index + 1, tree', stack, digits + [symbol])
            else After(Pending(stack, digits) + [stack[symbol - 1]],
                       Block(c, s, next, index + 1, tree', Front(stack, symbol - 1), []))
  }

  /** The bytes that a symbol adds to the block. */
  function Emitted(stack: seq<Byte>, digits: seq<nat>, symbol: nat): seq<Byte>
    requires symbol <= |stack| + 1
  {
    if symbol < 2 then []
    else if symbol == |stack| + 1 then Pending(stack, digits)
    else Pending(stack, digits) + [stack[symbol - 1]]
  }

  function StackAfter(stack: seq<Byte>, symbol: nat): (r: seq<Byte>)
    requires symbol <= |stack|
    ensures |r| == |stack|
  {
    if symbol < 2 then stack else Front(stack, symbol - 1)
  }

  function DigitsAfter(digits: seq<nat>, symbol: nat): seq<nat> {
    if symbol < 2 then digits + [symbol] else []
  }

  /** One decoded symbol. */
  lemma BlockStep(c: Coding, s: seq<Bit>, pos: nat, index: nat, tree: nat, stack: seq<Byte>, digits: seq<nat>,
                  symbol: nat, done: seq<Byte>)
    requires c.Valid() && c.endSymbol == |stack| + 1 && index < GROUP * (c.selectorCount + 1)
    requires tree < |c.trees| && Decode(c.trees[tree], s, pos) == Some(symbol)
    ensures symbol <= c.endSymbol
    ensures symbol == c.endSymbol ==>
      After(done, Block(c, s, pos, index, tree, stack, digits)) ==
      Some((done + Emitted(stack, digits, symbol), pos + c.trees[tree][symbol]))
    ensures symbol != c.endSymbol && c.TreeFor(index + 1, tree).None? ==>
      After(done, Block(c, s, pos, index, tree, stack, digits)) == None
    ensures symbol != c.endSymbol && c.TreeFor(index + 1, tree).Some? ==> NextStep(c, index)
    ensures symbol != c.endSymbol && c.TreeFor(index + 1, tree).Some? ==>
      After(done, Block(c, s, pos, index, tree, stack, digits)) ==
      After(done + Emitted(stack, digits, symbol),
            Block(c, s, pos + c.trees[tree][symbol], index + 1, c.TreeFor(index + 1, tree).value,
                  StackAfter(stack, symbol), DigitsAfter(digits, symbol)))
  {
    hide Decode, Front, Pending;
    if symbol != c.endSymbol && c.TreeFor(index + 1, tree).Some? {
      var rest := Block(c, s, pos + c.trees[tree][symbol], index + 1, c.TreeFor(index + 1, tree).value,
                        StackAfter(stack, symbol), DigitsAfter(digits, symbol));
      AfterNothing(rest);
      AfterAfter(done, Emitted(stack, digits, symbol), rest);
    } else {
      AfterEnd(done, pos);
    }
  }

  /** There is room for another symbol. */
  ghost predicate NextStep(c: Coding, index: nat) {
    index + 1 < GROUP * (c.selectorCount + 1)
  }

  /** A block whose map marks no byte is empty, however many run symbols it has. */
  lemma {:induction false} EmptyMap(c: Coding, s: seq<Bit>, pos: nat, index: nat, tree: nat, digits: seq<nat>)
    requires c.Valid() && c.endSymbol == 1 && index < GROUP * (c.selectorCount + 1)
    ensures Block(c, s, pos, index, tree, [], digits).Some? ==> Block(c, s, pos, index, tree, [], digits).value.0 == []
    decreases GROUP * (c.selectorCount + 1) - index
  {
    hide Decode, Pending;
    if tree < |c.trees| && Decode(c.trees[tree], s, pos).Some? {
      var symbol := Decode(c.trees[tree], s, pos).value;
      if symbol != 1 && c.TreeFor(index + 1, tree).Some? {
        EmptyMap(c, s, pos + c.trees[tree][symbol], index + 1, c.TreeFor(index + 1, tree).value, digits + [symbol]);
      }
    }
  }

  // ---- The encoder ----

  /** There is a selector for every group and every tree has a code for every symbol. */
  ghost predicate Coded(c: Coding, symbols: seq<nat>, index: nat) {
    && FullTrees(c)
    && (index + |symbols| - 1) / GROUP < c.selectorCount
    && (forall i :: 0 <= i < |symbols| ==> symbols[i] <= c.endSymbol)
  }

  ghost predicate FullTrees(c: Coding) {
    && c.Valid()
    && (forall t :: 0 <= t < |c.trees| ==> Acceptable(c.trees[t], 20))
    && (forall i :: 0 <= i < c.selectorCount ==> c.selectors[i] < |c.trees|)
    && (forall t, k :: 0 <= t < |c.trees| && 0 <= k <= c.endSymbol ==> c.trees[t][k] > 0)
  }

  /** The code sizes in use for symbol `index`. */
  ghost function SizesFor(c: Coding, index: nat): (sizes: seq<nat>)
    requires FullTrees(c) && index / GROUP < c.selectorCount
    ensures |sizes| == c.endSymbol + 1 && Acceptable(sizes, 20) && forall k :: 0 <= k < |sizes| ==> sizes[k] > 0
  {
    c.trees[c.selectors[index / GROUP]]
  }

  ghost function SymbolBits(c: Coding, symbols: seq<nat>, index: nat): seq<Bit>
    requires Coded(c, symbols, index)
    decreases |symbols|
  {
    if |symbols| == 0 then []
    else CodeBits(SizesFor(c, index), symbols[0]) + SymbolBits(c, symbols[1..], index + 1)
  }

  /** Every symbol has a code in every tree, and there is a selector for every fifty symbols. */
  ghost predicate Grouped(trees: seq<seq<nat>>, selectors: seq<Byte>, symbols: seq<nat>) {
    && |symbols| <= 50 * |selectors|
    && (forall i :: 0 <= i < |selectors| ==> selectors[i] < |trees|)
    && (forall t, i :: 0 <= t < |trees| && 0 <= i < |symbols| ==> symbols[i] < |trees[t]|)
  }

  /** The code of the symbols: fifty with the tree of the first selector, the next fifty with that of the second. */
  ghost function GroupedBits(trees: seq<seq<nat>>, selectors: seq<Byte>, symbols: seq<nat>): seq<Bit>
    requires Grouped(trees, selectors, symbols)
    decreases |symbols|
  {
    if |symbols| == 0 then []
    else if |symbols| <= 50 then Encode(trees[selectors[0]], symbols)
    else Encode(trees[selectors[0]], symbols[..50]) + GroupedBits(trees, selectors[1..], symbols[50..])
  }

  /** The code of a symbol of group j is that of its tree. */
  lemma FirstOfGroup(c: Coding, symbols: seq<nat>, index: nat, j: nat)
    requires Coded(c, symbols, index) && |symbols| > 0 && 50 * j <= index < 50 * j + 50
    ensures j < c.selectorCount < |c.selectors| && c.selectors[j] < |c.trees| && symbols[0] < |c.trees[c.selectors[j]]|
    ensures SymbolBits(c, symbols, index) ==
            CodeBits(c.trees[c.selectors[j]], symbols[0]) + SymbolBits(c, symbols[1..], index + 1)
  {
    hide Acceptable, CodeBits;
    assert index / 50 == j;
  }

  lemma CodedRest(c: Coding, symbols: seq<nat>, index: nat)
    requires Coded(c, symbols, index) && |symbols| > 0
    ensures Coded(c, symbols[1..], index + 1)
  {
    hide FullTrees;
  }

  lemma EncodeOne(sizes: seq<nat>, symbols: seq<nat>)
    requires |symbols| == 1 && symbols[0] < |sizes|
    ensures Encode(sizes, symbols) == CodeBits(sizes, symbols[0])
  {
    hide CodeBits;
  }

  /** The symbols of one group are written with one tree. */
  lemma {:induction false} OneGroup(c: Coding, a: seq<nat>, b: seq<nat>, index: nat, j: nat)
    requires |a| > 0 && Coded(c, a + b, index) && Coded(c, b, index + |a|) && 50 * j <= index && index + |a| <= 50 * j + 50
    ensures j < c.selectorCount < |c.selectors| && c.selectors[j] < |c.trees|
    ensures forall i :: 0 <= i < |a| ==> a[i] < |c.trees[c.selectors[j]]|
    ensures SymbolBits(c, a + b, index) == Encode(c.trees[c.selectors[j]], a) + SymbolBits(c, b, index + |a|)
    decreases |a|
  {
    hide Acceptable, CodeBits, SymbolBits, Coded, FullTrees;
    FirstOfGroup(c, a + b, index, j);
    CodedRest(c, a + b, index);
    assert (a + b)[1..] == a[1..] + b && (a + b)[0] == a[0];
    if |a| == 1 {
      assert a[1..] + b == b;
      EncodeOne(c.trees[c.selectors[j]], a);
    } else {
      OneGroup(c, a[1..], b, index + 1, j);
    }
  }

  lemma {:induction false} GroupedIsSymbolBits(c: Coding, symbols: seq<nat>, j: nat)
    requires Coded(c, symbols, 50 * j) && j <= c.selectorCount
    ensures Grouped(c.trees, c.selectors[j..c.selectorCount], symbols)
    ensures SymbolBits(c, symbols, 50 * j) == GroupedBits(c.trees, c.selectors[j..c.selectorCount], symbols)
    decreases |symbols|
  {
    hide Acceptable, SymbolBits, Encode;
    var selectors := c.selectors[j..c.selectorCount];
    if |symbols| == 0 {
      assert symbols == [];
      NoSymbolBits(c, 50 * j);
    } else if |symbols| <= 50 {
      assert symbols + [] == symbols;
      OneGroup(c, symbols, [], 50 * j, j);
      NoSymbolBits(c, 50 * j + |symbols|);
      var code := Encode(c.trees[selectors[0]], symbols);
      assert code + [] == code;
    } else {
      var first, rest := symbols[..50], symbols[50..];
      assert first + rest == symbols;
      OneGroup(c, first, rest, 50 * j, j);
      GroupedIsSymbolBits(c, rest, j + 1);
      assert selectors[1..] == c.selectors[j + 1..c.selectorCount];
    }
  }

  /** The first symbol of a coded list is decoded and the next tree is the one of its successor. */
  lemma FirstSymbol(c: Coding, s: seq<Bit>, pos: nat, symbols: seq<nat>, index: nat)
    requires Coded(c, symbols, index) && |symbols| > 0 && Has(s, pos, SymbolBits(c, symbols, index))
    ensures Decode(SizesFor(c, index), s, pos) == Some(symbols[0])
    ensures Has(s, pos + SizesFor(c, index)[symbols[0]], SymbolBits(c, symbols[1..], index + 1))
    ensures |SymbolBits(c, symbols, index)| ==
            SizesFor(c, index)[symbols[0]] + |SymbolBits(c, symbols[1..], index + 1)|
    ensures |symbols| > 1 ==>
      c.TreeFor(index + 1, c.selectors[index / GROUP]) == Some(c.selectors[(index + 1) / GROUP] as nat)
  {
    hide Has, Acceptable;
    var sizes := SizesFor(c, index);
    HasConcat(s, pos, CodeBits(sizes, symbols[0]), SymbolBits(c, symbols[1..], index + 1));
    DecodeCode(sizes, 20, s, pos, symbols[0]);
  }

  /** Reading the coded symbols of a block gives the bytes they stand for. */
  lemma {:induction false} BlockRoundTrip(c: Coding, s: seq<Bit>, pos: nat, symbols: seq<nat>, index: nat,
                                          stack: seq<Byte>, digits: seq<nat>)
    requires |stack| > 0 && c.endSymbol == |stack| + 1 && Coded(c, symbols + [c.endSymbol], index)
    requires forall i :: 0 <= i < |symbols| ==> symbols[i] <= |stack|
    requires Has(s, pos, SymbolBits(c, symbols + [c.endSymbol], index))
    requires index < GROUP * (c.selectorCount + 1)
    ensures Block(c, s, pos, index, c.selectors[index / GROUP], stack, digits) ==
            Some((Interpret(symbols, stack, digits), pos + |SymbolBits(c, symbols + [c.endSymbol], index)|))
    decreases |symbols|
  {
    hide Has, Acceptable, Decode, SymbolBits, Block, Interpret, StackAfter, DigitsAfter, Pending, Emitted;
    if |symbols| > 0 {
      var all := symbols + [c.endSymbol];
      var next := pos + SizesFor(c, index)[symbols[0]];
      assert all[1..] == symbols[1..] + [c.endSymbol];
      FirstSymbol(c, s, pos, all, index);
      BlockFirst(c, s, pos, index, stack, digits, symbols[0]);
      InterpretStep(symbols, stack, digits);
      BlockRoundTrip(c, s, next, symbols[1..], index + 1, StackAfter(stack, symbols[0]), DigitsAfter(digits, symbols[0]));
    } else {
      BlockLast(c, s, pos, index, stack, digits);
    }
  }

  lemma BlockFirst(c: Coding, s: seq<Bit>, pos: nat, index: nat, stack: seq<Byte>, digits: seq<nat>, symbol: nat)
    requires FullTrees(c) && c.endSymbol == |stack| + 1 && (index + 1) / GROUP < c.selectorCount
    requires Decode(SizesFor(c, index), s, pos) == Some(symbol) && symbol < c.endSymbol
    requires c.TreeFor(index + 1, c.selectors[index / GROUP]) == Some(c.selectors[(index + 1) / GROUP] as nat)
    ensures Block(c, s, pos, index, c.selectors[index / GROUP], stack, digits) ==
      After(Emitted(stack, digits, symbol),
            Block(c, s, pos + SizesFor(c, index)[symbol], index + 1, c.selectors[(index + 1) / GROUP],
                  StackAfter(stack, symbol), DigitsAfter(digits, symbol)))
  {
    hide Acceptable, Decode, Block, StackAfter, DigitsAfter, Emitted;
    BlockStep(c, s, pos, index, c.selectors[index / GROUP], stack, digits, symbol, []);
    AfterNothing(Block(c, s, pos, index, c.selectors[index / GROUP], stack, digits));
    assert [] + Emitted(stack, digits, symbol) == Emitted(stack, digits, symbol);
  }

  lemma BlockLast(c: Coding, s: seq<Bit>, pos: nat, index: nat, stack: seq<Byte>, digits: seq<nat>)
    requires |stack| > 0 && c.endSymbol == |stack| + 1 && Coded(c, [] + [c.endSymbol], index)
    requires Has(s, pos, SymbolBits(c, [] + [c.endSymbol], index))
    ensures Block(c, s, pos, index, c.selectors[index / GROUP], stack, digits) ==
            Some((Interpret([], stack, digits), pos + |SymbolBits(c, [] + [c.endSymbol], index)|))
  {
    hide Has, Acceptable, Decode, SymbolBits, Block, Pending;
    var all := [] + [c.endSymbol];
    FirstSymbol(c, s, pos, all, index);
    BlockStep(c, s, pos, index, c.selectors[index / GROUP], stack, digits, c.endSymbol, []);
    AfterNothing(Block(c, s, pos, index, c.selectors[index / GROUP], stack, digits));
    assert [] + Emitted(stack, digits, c.endSymbol) == Emitted(stack, digits, c.endSymbol);
    InterpretStep([], stack, digits);
    assert all[1..] == [];
    NoSymbolBits(c, index + 1);
  }

  lemma InterpretStep(symbols: seq<nat>, stack: seq<Byte>, digits: seq<nat>)
    requires forall i :: 0 <= i < |symbols| ==> symbols[i] <= |stack|
    ensures Interpret(symbols, stack, digits) ==
      if |symbols| == 0 then Pending(stack, digits)
      else Emitted(stack, digits, symbols[0])
           + Interpret(symbols[1..], StackAfter(stack, symbols[0]), DigitsAfter(digits, symbols[0]))
  {
    hide Front, RunValue;
  }

  lemma NoSymbolBits(c: Coding, index: nat)
    ensures Coded(c, [], index) ==> SymbolBits(c, [], index) == []
  {
  }

  // ---- Reading ----

  /** The trees are built from the code sizes of the coding. */
  ghost predicate Represents(trees: seq<HuffmanTree>, c: Coding)
    reads trees
  {
    && |trees| == |c.trees|
    && forall t :: 0 <= t < |trees| ==>
      trees[t].Built() && trees[t].codeSizes == c.trees[t] && trees[t].largestCodeSize == Bzip2Trees.LARGEST
  }

  /** The block data starts with the given bytes. */
  ghost predicate Holds(blockData: array<Byte>, bytes: seq<Byte>)
    reads blockData
  {
    |bytes| <= blockData.Length && forall i :: 0 <= i < |bytes| ==> blockData[i] == bytes[i]
  }

  /** Writes the pending zero run, if there is one. */
  method FlushRun(blockData: array<Byte>, offset: nat, value: Byte, count: nat, runValue: nat,
                  ghost done: seq<Byte>, ghost digits: seq<nat>) returns (ok: bool, endOffset: nat)
    requires blockData.Length == BLOCK_SIZE && |done| == offset && Holds(blockData, done)
    requires count == |digits| && runValue == DigitValue(digits) && forall i :: 0 <= i < |digits| ==> digits[i] < 2
    modifies blockData
    ensures ok <==> offset + RunValue(digits) <= BLOCK_SIZE
    ensures ok ==> endOffset == offset + RunValue(digits)
    ensures ok ==> Holds(blockData, done + Repeat(value, RunValue(digits)))
  {
    hide RunValue, DigitValue, BitOr, Shl;
    endOffset := offset;
    if count != 0 {
      FinishRun(digits);
      var runLength := BitOr(Shl(1, count), runValue) - 1;
      if runLength > BLOCK_SIZE - offset {
        return false, offset;
      }
      WriteRun(blockData, offset, value, runLength);
      endOffset := offset + runLength;
    } else {
      EmptyRun();
      assert digits == [];
    }
    ok := true;
  }

  lemma EmptyRun()
    ensures RunValue([]) == 0
  {
  }

  lemma FrontPrefix(stack: seq<Byte>, n: nat, i: nat)
    requires i < n <= |stack|
    ensures Front(stack, i)[..n] == Front(stack[..n], i)
  {
  }

  /** Moves a stack entry to the front and appends it to the block. */
  method MoveAndStore(symbolStack: array<Byte>, n: nat, index: nat, blockData: array<Byte>, offset: nat, ghost done: seq<Byte>)
    returns (ok: bool)
    requires index < n <= symbolStack.Length && symbolStack != blockData
    requires blockData.Length == BLOCK_SIZE && offset == |done| && Holds(blockData, done)
    modifies symbolStack, blockData
    ensures symbolStack[..n] == Front(old(symbolStack[..n]), index)
    ensures ok <==> offset < BLOCK_SIZE
    ensures ok ==> Holds(blockData, done + [old(symbolStack[index])])
  {
    hide Front;
    FrontPrefix(symbolStack[..], n, index);
    assert symbolStack[..][..n] == symbolStack[..n];
    var value := MoveInPlace(symbolStack, index);
    assert symbolStack[..][..n] == symbolStack[..n];
    if offset >= BLOCK_SIZE {
      return false;
    }
    blockData[offset] := value;
    ok := true;
  }

  /** Adds what a symbol stands for to the block, or to the pending run. */
  method StoreSymbol(symbolStack: array<Byte>, n: nat, symbol: nat, blockData: array<Byte>, offset: nat,
                     count: nat, value: nat, ghost done: seq<Byte>, ghost digits: seq<nat>)
    returns (ok: bool, endOffset: nat, runCount: nat, runValue: nat)
    requires n <= symbolStack.Length && symbol <= n + 1 && symbolStack != blockData
    requires blockData.Length == BLOCK_SIZE && |done| == offset <= BLOCK_SIZE && Holds(blockData, done)
    requires count == |digits| && value == DigitValue(digits) && forall i :: 0 <= i < |digits| ==> digits[i] < 2
    modifies symbolStack, blockData
    ensures ok <==> offset + |Emitted(old(symbolStack[..n]), digits, symbol)| <= BLOCK_SIZE
    ensures ok ==> endOffset == offset + |Emitted(old(symbolStack[..n]), digits, symbol)|
    ensures ok ==> Holds(blockData, done + Emitted(old(symbolStack[..n]), digits, symbol))
    ensures ok && symbol <= n ==> symbolStack[..n] == StackAfter(old(symbolStack[..n]), symbol)
    ensures ok && symbol <= n ==>
      runCount == |DigitsAfter(digits, symbol)| && runValue == DigitValue(DigitsAfter(digits, symbol))
    ensures multiset(symbolStack[..n]) == old(multiset(symbolStack[..n]))
  {
    hide RunValue, DigitValue, BitOr, Shl, Holds, Front;
    ghost var stack, flushed := symbolStack[..n], done;
    ok, endOffset, runCount, runValue := true, offset, count, value;
    if symbol > 1 {
      ok, endOffset := FlushRun(blockData, offset, symbolStack[0], count, value, done, digits);
      if !ok {
        return;
      }
      NoDigits(blockData);
      flushed := done + Pending(stack, digits);
      runCount, runValue := 0, 0;
    } else {
      assert done + [] == done;
    }
    if symbol == n + 1 {
      return;
    }
    if symbol == 0 || symbol == 1 {
      AccumulateDigit(digits, symbol);
      runValue := BitOr(runValue, Shl(symbol, runCount));
      runCount := runCount + 1;
    } else {
      FrontPermutes(stack, symbol - 1);
      ok := MoveAndStore(symbolStack, n, symbol - 1, blockData, endOffset, flushed);
      assert flushed + [stack[symbol - 1]] == done + Emitted(stack, digits, symbol);
      endOffset := endOffset + 1;
    }
  }

  /**
   * The loop over the symbols of a block. It decodes at most 50 symbols for each selector and 50 more, so that it
   * ends on every input, padding included.
   */
  method ReadBlockData(bitstream: Bzip2Bitstream, trees: seq<HuffmanTree>, selectors: array<Byte>, selectorCount: nat,
                       symbolStack: array<Byte>, numberOfSymbols: nat, blockData: array<Byte>, ghost c: Coding)
    returns (r: Option<nat>, ghost decodedSymbols: nat)
    requires bitstream.Valid() && c.Valid() && Represents(trees, c)
    requires c.selectors == selectors[..] && c.selectorCount == selectorCount
    requires 2 <= numberOfSymbols == c.endSymbol + 1 && numberOfSymbols - 2 <= symbolStack.Length
    requires blockData.Length == BLOCK_SIZE && symbolStack != blockData && symbolStack != selectors && blockData != selectors
    modifies bitstream, symbolStack, blockData
    ensures bitstream.Valid()
    ensures var n := numberOfSymbols - 2;
      var all := Block(c, bitstream.Source(), old(bitstream.position), 0, c.selectors[0], old(symbolStack[..n]), []);
      && (r.Some? <==> all.Some? && |all.value.0| <= BLOCK_SIZE)
      && (r.Some? ==> r.value == |all.value.0| && Holds(blockData, all.value.0) && bitstream.position == all.value.1)
    ensures multiset(symbolStack[..numberOfSymbols - 2]) == old(multiset(symbolStack[..numberOfSymbols - 2]))
    ensures decodedSymbols <= 50 * (selectorCount + 1)
    ensures bitstream.position <= old(bitstream.position) + Bzip2Trees.LARGEST * decodedSymbols
  {
    hide Bzip2Bitstream.Valid, Bzip2Bitstream.Source, Block, After, Decode, Emitted, StackAfter, DigitsAfter, DigitValue,
         Holds, HuffmanTree.Built;
    ghost var s, pos := bitstream.Source(), bitstream.position;
    var n := numberOfSymbols - 2;
    ghost var all := Block(c, s, pos, 0, c.selectors[0], symbolStack[..n], []);
    ghost var done: seq<Byte>, digits: seq<nat> := [], [];
    var blockDataOffset: nat := 0;
    var runCount: nat, runValue: nat := 0, 0;
    var symbolIndex: nat := 0;
    var treeIndex: nat := selectors[0];
    decodedSymbols := 0;
    AfterNothing(all);
    NoDigits(blockData);
    while true
      invariant bitstream.Valid() && bitstream.Source() == s && Represents(trees, c) && c.selectors == selectors[..]
      invariant symbolIndex == decodedSymbols < GROUP * (c.selectorCount + 1)
      invariant bitstream.position <= pos + Bzip2Trees.LARGEST * decodedSymbols
      invariant |done| == blockDataOffset <= BLOCK_SIZE && Holds(blockData, done)
      invariant runCount == |digits| && runValue == DigitValue(digits)
      invariant forall i :: 0 <= i < |digits| ==> digits[i] < 2
      invariant all == After(done, Block(c, s, bitstream.position, symbolIndex, treeIndex, symbolStack[..n], digits))
      invariant multiset(symbolStack[..n]) == old(multiset(symbolStack[..n]))
      decreases GROUP * (c.selectorCount + 1) - symbolIndex
    {
      ghost var position, stack := bitstream.position, symbolStack[..n];
      if treeIndex >= |trees| {
        BadTree(c, s, position, symbolIndex, treeIndex, stack, digits, done);
        return None, decodedSymbols;
      }
      var tree := trees[treeIndex];
      TreeSizes(tree);
      var decoded := tree.DecodeSymbol(OfBzip2(bitstream));
      decodedSymbols := decodedSymbols + 1;
      if decoded.None? {
        BadCode(c, s, position, symbolIndex, treeIndex, stack, digits, done);
        return None, decodedSymbols;
      }
      var symbol := decoded.value;
      BlockStep(c, s, position, symbolIndex, treeIndex, stack, digits, symbol, done);
      ghost var chunk := Emitted(stack, digits, symbol);
      var ok;
      ok, blockDataOffset, runCount, runValue :=
        StoreSymbol(symbolStack, n, symbol, blockData, blockDataOffset, runCount, runValue, done, digits);
      if !ok {
        TooLong(c, s, position, symbolIndex, treeIndex, stack, digits, symbol, done);
        return None, decodedSymbols;
      }
      if symbol == numberOfSymbols - 1 {
        return Some(blockDataOffset), decodedSymbols;
      }
      done := done + chunk;
      DigitsStayBinary(digits, symbol);
      digits := DigitsAfter(digits, symbol);
      symbolIndex := symbolIndex + 1;
      if symbolIndex % GROUP == 0 {
        var selectorIndex := symbolIndex / GROUP;
        if selectorIndex > selectorCount {
          return None, decodedSymbols;
        }
        treeIndex := selectors[selectorIndex];
      }
    }
  }

  lemma TreeSizes(tree: HuffmanTree)
    requires tree.Built()
    ensures forall i :: 0 <= i < |tree.codeSizes| ==> tree.codeSizes[i] <= tree.largestCodeSize
  {
  }

  lemma DigitsStayBinary(digits: seq<nat>, symbol: nat)
    requires forall i :: 0 <= i < |digits| ==> digits[i] < 2
    ensures forall i :: 0 <= i < |DigitsAfter(digits, symbol)| ==> DigitsAfter(digits, symbol)[i] < 2
  {
  }

  lemma TooLong(c: Coding, s: seq<Bit>, pos: nat, index: nat, tree: nat, stack: seq<Byte>, digits: seq<nat>, symbol: nat,
                done: seq<Byte>)
    requires c.Valid() && c.endSymbol == |stack| + 1 && index < GROUP * (c.selectorCount + 1)
    requires tree < |c.trees| && Decode(c.trees[tree], s, pos) == Some(symbol)
    requires symbol <= c.endSymbol && |done| + |Emitted(stack, digits, symbol)| > BLOCK_SIZE
    ensures var all := After(done, Block(c, s, pos, index, tree, stack, digits)); all.Some? ==> |all.value.0| > BLOCK_SIZE
  {
    hide Decode, Block, Emitted, StackAfter, DigitsAfter;
    BlockStep(c, s, pos, index, tree, stack, digits, symbol, done);
  }

  lemma NoDigits(blockData: array<Byte>)
    ensures DigitValue([]) == 0 && Holds(blockData, [])
  {
  }

  lemma BadTree(c: Coding, s: seq<Bit>, pos: nat, index: nat, tree: nat, stack: seq<Byte>, digits: seq<nat>, done: seq<Byte>)
    requires c.Valid() && c.endSymbol == |stack| + 1 && index < GROUP * (c.selectorCount + 1) && tree >= |c.trees|
    ensures After(done, Block(c, s, pos, index, tree, stack, digits)) == None
  {
  }

  lemma BadCode(c: Coding, s: seq<Bit>, pos: nat, index: nat, tree: nat, stack: seq<Byte>, digits: seq<nat>, done: seq<Byte>)
    requires c.Valid() && c.endSymbol == |stack| + 1 && index < GROUP * (c.selectorCount + 1)
    requires tree < |c.trees| && Decode(c.trees[tree], s, pos) == None
    ensures After(done, Block(c, s, pos, index, tree, stack, digits)) == None
  {
    hide Decode;
  }
}
