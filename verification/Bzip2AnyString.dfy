/** Every string that fits a block has a bzip2 stream: suitable choices always exist. */
module Bzip2AnyString {
  import opened Options
  import opened Words
  import opened Bits
  import opened HuffmanCodes
  import opened RunLength
  import opened MoveToFront
  import opened ZeroRuns
  import opened BurrowsWheeler
  import opened Bzip2Trees
  import opened Bzip2SymbolStack
  import opened Bzip2Transform
  import opened Bzip2BlockData
  import opened Bzip2Format
  import opened Bzip2Encoder
  import Crc = Crc32Contexts

  // ---- A full code for 258 symbols ----

  /** 254 codes of eight bits and four of nine. */
  function FlatTree(): (r: seq<Byte>)
    ensures |r| == 258 && forall i :: 0 <= i < 258 ==> r[i] == if i < 254 then 8 else 9
  {
    seq<Byte>(258, i => if i < 254 then 8 else 9)
  }

  lemma FlatTreeSuits()
    ensures FullCode(FlatTree()) && AllSmall(FlatTree())
  {
    hide Kraft, FlatTree, Pow2;
    FlatTreeKraft(FlatTree());
    assert FlatTree()[0] != 0;
  }

  lemma FlatTreeKraft(sizes: seq<nat>)
    requires |sizes| == 258 && forall i :: 0 <= i < 258 ==> sizes[i] == if i < 254 then 8 else 9
    ensures Kraft(sizes, LARGEST) == Pow2(LARGEST)
  {
    hide Kraft, Pow2;
    var short := sizes[..254];
    assert short[..0] == [];
    NoSizes(LARGEST);
    KraftRun(short, 0, 8, LARGEST);
    KraftRun(sizes, 254, 9, LARGEST);
    KraftSum();
  }

  lemma KraftSum()
    ensures 254 * Pow2(LARGEST - 8) + 4 * Pow2(LARGEST - 9) == Pow2(LARGEST)
  {
    Pow2Table();
    ShlPow2(12, 8);
    Shl8Bits(Pow2(12));
    assert Pow2(12) == 2 * Pow2(11);
  }

  // ---- All bytes are marked as used ----

  function AllUsed(): (r: seq<bool>)
    ensures |r| == 256 && forall i :: 0 <= i < 256 ==> r[i]
  {
    seq<bool>(256, _ => true)
  }

  /** The bytes from one to another, in order. */
  function Range(from: nat, to: nat): (r: seq<Byte>)
    requires from <= to <= 256
    ensures |r| == to - from && forall i :: 0 <= i < |r| ==> r[i] == from + i
  {
    seq<Byte>(to - from, i requires 0 <= i < to - from => from + i)
  }

  lemma RangeSplit(from: nat, middle: nat, to: nat)
    requires from <= middle <= to <= 256
    ensures Range(from, to) == Range(from, middle) + Range(middle, to)
  {
  }

  lemma {:induction false} GroupHasAll(g: nat, k: nat)
    requires g < 16 && k <= 16
    ensures UsedGroup(AllUsed(), g, k) == Range(16 * g + k, 16 * g + 16)
    decreases 16 - k
  {
    if k < 16 {
      GroupHasAll(g, k + 1);
      RangeSplit(16 * g + k, 16 * g + k + 1, 16 * g + 16);
      assert Range(16 * g + k, 16 * g + k + 1) == [16 * g + k];
    }
  }

  lemma {:induction false} StackHasAll(g: nat)
    requires g <= 16
    ensures Used(AllUsed(), g) == Range(16 * g, 256)
    decreases 16 - g
  {
    hide UsedGroup;
    if g < 16 {
      GroupHasAll(g, 0);
      StackHasAll(g + 1);
      RangeSplit(16 * g, 16 * g + 16, 256);
    }
  }

  lemma EveryByteUsed(b: Byte)
    ensures |Used(AllUsed(), 0)| == 256 && b in Used(AllUsed(), 0)
  {
    hide Used;
    StackHasAll(0);
    assert Range(0, 256)[b] == b;
  }

  // ---- The symbols are not more than the bytes ----

  lemma {:induction false} FewDigits(n: nat)
    ensures |Digits(n)| <= n
  {
    if n > 0 { FewDigits((n - 1) / 2); }
  }

  lemma {:induction false} FewSymbols(block: seq<Byte>, stack: seq<Byte>, zeros: nat)
    requires forall i :: 0 <= i < |block| ==> block[i] in stack
    ensures |Symbols(block, stack, zeros)| <= |block| + zeros
    decreases |block|
  {
    hide Digits, Front;
    FewDigits(zeros);
    if |block| > 0 {
      var i := IndexOf(stack, block[0]);
      FrontPermutes(stack, i);
      if i == 0 {
        FewSymbols(block[1..], stack, zeros + 1);
      } else {
        FewSymbols(block[1..], Front(stack, i), 0);
      }
    }
  }

  // ---- Choices ----

  /** All bytes and groups marked as used, the same tree twice, and as many selectors as there could be groups of symbols. */
  function PlainChoices(tree: TreeForm, column: seq<Byte>): Choices {
    Choices(AllUsed(), seq<bool>(16, _ => true), [tree, tree], seq<Byte>(|column| / 50 + 1, _ => 0), 0)
  }

  /** For every block of any level these choices do, with every full code for 258 symbols. */
  lemma PlainChoicesSuit(tree: TreeForm, column: seq<Byte>)
    requires tree.Valid(258) && |column| <= LevelSize(0x39)
    ensures PlainChoices(tree, column).Suit(column) && |PlainChoices(tree, column).Stack()| == 256
    ensures AllReadable(PlainChoices(tree, column).trees) <==> tree.Readable()
  {
    hide TreeForm.Valid, Symbols, Used, TreeForm.Readable;
    TreeWalks(tree, 258);
    EveryByteUsed(0);
    forall i | 0 <= i < |column| ensures column[i] in Used(AllUsed(), 0) {
      EveryByteUsed(column[i]);
    }
    FewSymbols(column, Used(AllUsed(), 0), 0);
    TwiceReadable(tree);
  }

  lemma TwiceReadable(tree: TreeForm)
    ensures AllReadable([tree, tree]) <==> tree.Readable()
  {
    hide TreeForm.Readable;
    var trees := [tree, tree];
    assert trees[1..] == [tree] && AllReadable([tree][1..]);
  }

  /** A block for a run-length form, with its own checksum in the header. */
  lemma PlainPart(runs: seq<Byte>, tree: TreeForm, level: Byte) returns (part: Part)
    requires 0x31 <= level <= 0x39 && 0 < |runs| <= LevelSize(level) && tree.Valid(258)
    ensures part.Valid(level) && part.runs == runs && part.choices.trees == [tree, tree]
    ensures part.checksum == BlockChecksum(part.Content()) as nat
    ensures part.Accepted() <==> |runs| <= 100000 && tree.Readable()
  {
    hide Choices.Suit, AllReadable, Transforms, BlockChecksum, Expand, TreeForm.Valid, TreeForm.Readable, AllUsed;
    TreeWalks(tree, 258);
    TransformExists(runs);
    var column: seq<Byte>, origin: nat :| Transforms(column, origin, runs) && |column| == |runs| && origin < |runs|;
    PlainChoicesSuit(tree, column);
    part := Part(runs, PlainChoices(tree, column), column, origin, BlockChecksum(Expand(runs, 0, 0)) as nat);
  }

  /**
   * Every byte string whose run-length form fits a block of the level, the empty string included, has a file of
   * that level. It decompresses to the string exactly when the run-length form has at most 100000 bytes and the
   * string fits the output.
   */
  lemma EveryStringDecompresses(s: seq<Byte>, level: Byte, capacity: nat) returns (parts: seq<Part>)
    requires 0x31 <= level <= 0x39 && |Compress(s)| <= LevelSize(level)
    ensures ValidParts(parts, level) && |parts| <= 1 && ContentOf(parts) == s
    ensures Decompressed(File(parts, Some(Combined(parts) as nat), 0x68, level), capacity) ==
      if |Compress(s)| <= 100000 && |s| <= capacity then Some(s) else None
  {
    hide Compress, Expand, Part.Valid, Part.Accepted, Decompressed, File, Combined, BlockChecksum, FlatTree, FullCode,
         TreeForm.Valid, TreeForm.Readable;
    parts := [];
    RunLength.RoundTrip(s);
    if |s| > 0 {
      FlatTreeSuits();
      var tree := FormOf(FlatTree()[0], FlatTree());
      TreeWalks(tree, 258);
      var part := PlainPart(Compress(s), tree, level);
      parts := [part];
      assert ContentOf(parts[1..]) == [];
      OneAccepted(part, level);
    } else {
      EmptyCompressed();
    }
    assert ContentOf(parts) == s;
    Bzip2Encoder.RoundTrip(parts, 0x68, level, capacity);
  }

  lemma OneAccepted(part: Part, level: Byte)
    requires 0x31 <= level <= 0x39 && part.Valid(level)
    ensures ValidParts([part], level) && (AllAccepted([part]) <==> part.Accepted())
  {
    hide Part.Accepted, Part.Valid;
    assert [part][0] == part;
  }

  lemma EmptyCompressed()
    ensures Compress([]) == []
  {
  }

  // ---- The file of the empty string ----

  const END_BYTES: seq<Byte> := [0x17, 0x72, 0x45, 0x38, 0x50, 0x90, 0, 0, 0, 0]

  lemma EndMarker()
    ensures HeaderAt(BitsOf(MsbFirst, END_BYTES), 0) == Some((EndHeader(0), 80))
  {
    hide BitsOf, MsbValue, Shr;
    assert END_BYTES[..6] == [0x17, 0x72, 0x45, 0x38, 0x50, 0x90];
    var bits := BitsOf(MsbFirst, END_BYTES);
    SignatureBytes(END_BYTES);
    forall j | 48 <= j < 80 ensures At(bits, j) == 0 {
      BitOfData(MsbFirst, END_BYTES, j);
      ShrOfZero(7 - j % 8);
    }
    ZeroValue(bits, 48, 32);
  }

  /** The fourteen bytes that bzip2 writes for the empty string. */
  lemma EmptyFile(capacity: nat)
    ensures Decompressed([0x42, 0x5a, 0x68, 0x39, 0x17, 0x72, 0x45, 0x38, 0x50, 0x90, 0, 0, 0, 0], capacity) == Some([])
  {
    hide BitsOf, HeaderAt, Crc.Checksum, NoSelectorsYet, ContentAt, Output;
    var file: seq<Byte> := [0x42, 0x5a, 0x68, 0x39, 0x17, 0x72, 0x45, 0x38, 0x50, 0x90, 0, 0, 0, 0];
    assert file[4..] == END_BYTES;
    EndMarker();
    CombinedOfOne([]);
    assert Combined([]) == 0 && ContentOf([]) == [];
  }

  lemma {:induction false} ShrOfZero(k: nat)
    ensures Shr(0, k) == 0
  {
    if k > 0 { ShrOfZero(k - 1); }
  }

  lemma {:induction false} ZeroValue(s: seq<Bit>, pos: nat, n: nat)
    requires forall j :: pos <= j < pos + n ==> At(s, j) == 0
    ensures MsbValue(s, pos, n) == 0
  {
    if n > 0 { ZeroValue(s, pos, n - 1); }
  }
}
