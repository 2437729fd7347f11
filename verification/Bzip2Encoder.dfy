/**
 * An encoder for bzip2 streams. The choices that the format leaves open - the run-length form, the bytes and groups
 * marked as used, the trees and how they are written, the selectors, the row used as origin, the level and the
 * number of blocks - are left open here too.
 */
module Bzip2Encoder {
  import opened Options
  import opened Words
  import opened Bits
  import opened HuffmanCodes
  import opened RunLength
  import opened ZeroRuns
  import opened BurrowsWheeler
  import opened Bzip2Selectors
  import opened Bzip2Trees
  import opened Bzip2SymbolStack
  import opened Bzip2Transform
  import opened Bzip2BlockData
  import opened Bzip2Format
  import Crc32
  import CrcBits = Crc32Bits
  import Crc = Crc32Contexts

  /** The free choices of an encoder for one block. The decoder reads the randomized flag and does not honour it. */
  datatype Choices = Choices(used: seq<bool>, groups: seq<bool>, trees: seq<TreeForm>, selectors: seq<Byte>, randomized: Bit) {

    function Stack(): seq<Byte>
      requires |used| == 256
    {
      Used(used, 0)
    }

    ghost function Code(tail: seq<Byte>): Coding
      requires |used| == 256 && ValidTrees(trees, |Stack()| + 2)
    {
      Coding(SizesOf(trees, |Stack()| + 2), selectors + tail, |selectors|, |Stack()| + 1)
    }

    /** All bytes of the column are used, the trees are full codes and there are enough selectors. */
    ghost predicate Suit(column: seq<Byte>) {
      && |used| == 256 && |Stack()| > 0 && Marks(used, groups)
      && (forall i :: 0 <= i < |column| ==> column[i] in Stack())
      && 1 <= |trees| <= 7 && ValidTrees(trees, |Stack()| + 2)
      && |selectors| < 32768 && (forall i :: 0 <= i < |selectors| ==> selectors[i] < |trees|)
      && |Symbols(column, Stack(), 0)| / 50 < |selectors|
    }

    /** The code sizes of the trees. */
    ghost function Sizes(column: seq<Byte>): seq<seq<nat>>
      requires Suit(column)
    {
      hide Used, Symbols, ValidTrees, Marks;
      SizesOf(trees, |Stack()| + 2)
    }

    /** The symbols of a block and its end symbol. */
    ghost function SymbolList(column: seq<Byte>): seq<nat>
      requires Suit(column)
    {
      hide Used, Symbols, ValidTrees, Marks;
      Symbols(column, Stack(), 0) + [|Stack()| + 1]
    }
  }

  // ---- Trees ----

  ghost predicate ValidTrees(trees: seq<TreeForm>, count: nat) {
    forall t :: 0 <= t < |trees| ==> trees[t].Valid(count)
  }

  /** The code sizes of the trees. */
  ghost function SizesOf(trees: seq<TreeForm>, count: nat): (r: seq<seq<nat>>)
    requires ValidTrees(trees, count)
    ensures |r| == |trees| && forall t :: 0 <= t < |r| ==> |r[t]| == count && FullCode(r[t])
  {
    if |trees| == 0 then [] else [trees[0].Sizes()] + SizesOf(trees[1..], count)
  }

  /** In no tree the running size gets to 20. */
  predicate AllReadable(trees: seq<TreeForm>) {
    |trees| == 0 || (trees[0].Readable() && AllReadable(trees[1..]))
  }

  function TreesBits(trees: seq<TreeForm>): seq<Bit> {
    if |trees| == 0 then [] else trees[0].Bits() + TreesBits(trees[1..])
  }

  /** The trees are read back up to the first one in which the running size gets to 20, which is refused. */
  lemma {:induction false} TreesRoundTrip(s: seq<Bit>, pos: nat, trees: seq<TreeForm>, count: nat)
    requires ValidTrees(trees, count)
    requires Has(s, pos, TreesBits(trees))
    ensures TreesAt(s, pos, |trees|, count) ==
      if AllReadable(trees) then Some((SizesOf(trees, count), pos + |TreesBits(trees)|)) else None
    decreases |trees|
  {
    hide Has, TreeForm.Bits, Tree, TreeForm.Readable, TreeForm.Valid, TreeForm.Sizes;
    if |trees| > 0 {
      TreeWalks(trees[0], count);
      HasConcat(s, pos, trees[0].Bits(), TreesBits(trees[1..]));
      TreeRoundTrip(s, pos, trees[0], count);
      TreesRoundTrip(s, pos + |trees[0].Bits()|, trees[1..], count);
    }
  }

  lemma TreeWalks(tree: TreeForm, count: nat)
    requires tree.Valid(count)
    ensures tree.Walkable() && |tree.Sizes()| == count && FullCode(tree.Sizes())
  {
  }

  // ---- The block after its header ----

  lemma SuitCoded(e: Choices, column: seq<Byte>, tail: seq<Byte>)
    requires e.Suit(column) && |tail| > 0
    ensures e.Code(tail).Valid()
    ensures Coded(e.Code(tail), Symbols(column, e.Stack(), 0) + [e.Code(tail).endSymbol], 0)
  {
    hide Symbols, Used, Acceptable, ValidTrees;
  }

  lemma SuitGrouped(e: Choices, column: seq<Byte>)
    requires e.Suit(column)
    ensures Grouped(e.Sizes(column), e.selectors, e.SymbolList(column))
  {
    hide Symbols, Used, ValidTrees, UsedGroup, Grouped, Coded, SymbolBits, GroupedBits;
    SuitCoded(e, column, [0]);
    SameSelectors(e.selectors, [0]);
    GroupedIsSymbolBits(e.Code([0]), e.SymbolList(column), 0);
  }

  /** The symbols of the block and its end symbol, in groups of fifty. */
  ghost function SymbolPart(e: Choices, column: seq<Byte>): seq<Bit>
    requires e.Suit(column)
  {
    hide Grouped, Choices.Suit, Choices.Sizes, Choices.SymbolList;
    SuitGrouped(e, column);
    GroupedBits(e.Sizes(column), e.selectors, e.SymbolList(column))
  }

  lemma InitialStackHas(selectors: seq<Byte>, trees: nat)
    requires trees <= 7 && forall i :: 0 <= i < |selectors| ==> selectors[i] < trees
    ensures TreesFirst(INITIAL_STACK, trees)
    ensures forall i :: 0 <= i < |selectors| ==> selectors[i] in INITIAL_STACK
  {
    forall i | 0 <= i < |selectors| ensures selectors[i] in INITIAL_STACK {
      assert INITIAL_STACK[selectors[i]] == selectors[i];
    }
  }

  ghost function TreePart(e: Choices, column: seq<Byte>): seq<Bit>
    requires e.Suit(column)
  {
    TreesBits(e.trees) + SymbolPart(e, column)
  }

  ghost function SelectorPart(e: Choices, column: seq<Byte>): seq<Bit>
    requires e.Suit(column)
  {
    InitialStackHas(e.selectors, |e.trees|);
    SelectorBits(e.selectors, INITIAL_STACK) + TreePart(e, column)
  }

  ghost function CountPart(e: Choices, column: seq<Byte>): seq<Bit>
    requires e.Suit(column)
  {
    MsbBits(|e.trees|, 3) + (MsbBits(|e.selectors|, 15) + SelectorPart(e, column))
  }

  ghost function ContentBits(e: Choices, column: seq<Byte>): seq<Bit>
    requires e.Suit(column)
  {
    MapBits(e.used, e.groups) + CountPart(e, column)
  }

  lemma SymbolPartRoundTrip(s: seq<Bit>, pos: nat, e: Choices, column: seq<Byte>, tail: seq<Byte>)
    requires e.Suit(column) && |tail| > 0 && Has(s, pos, SymbolPart(e, column))
    ensures e.Code(tail).Valid()
    ensures Block(e.Code(tail), s, pos, 0, (e.selectors + tail)[0], e.Stack(), []) ==
            Some((column, pos + |SymbolPart(e, column)|))
  {
    hide Has, Symbols, Used, SymbolBits, GroupedBits, Block, Interpret;
    var symbols := Symbols(column, e.Stack(), 0);
    SuitCoded(e, column, tail);
    SameSelectors(e.selectors, tail);
    GroupedIsSymbolBits(e.Code(tail), symbols + [|e.Stack()| + 1], 0);
    BlockRoundTrip(e.Code(tail), s, pos, symbols, 0, e.Stack(), []);
    SymbolsRoundTrip(column, e.Stack());
  }

  lemma SameSelectors(selectors: seq<Byte>, tail: seq<Byte>)
    ensures (selectors + tail)[0..|selectors|] == selectors
  {
  }

  /**
   * The content of a block is read back whatever the decoder's selectors held before, unless the block is longer
   * than the decoder's buffer or the running size of a tree gets to 20; then it is refused.
   */
  lemma ContentRoundTrip(s: seq<Bit>, pos: nat, e: Choices, column: seq<Byte>, before: seq<Byte>)
    requires e.Suit(column) && |before| == SELECTOR_SLOTS && Has(s, pos, ContentBits(e, column))
    ensures var r := ContentAt(s, pos, before);
      if AllReadable(e.trees) && |column| <= 100000 then
        r.Some? && r.value.column == column && r.value.end == pos + |ContentBits(e, column)|
      else r.None?
  {
    hide Has, MapBits, SelectorBits, TreesBits, SymbolPart, Selectors, TreesAt, Block, InUse, Used, MsbBits, MsbValue, Symbols,
         ValidTrees, AllReadable, UsedGroup;
    var p1 := pos + |MapBits(e.used, e.groups)|;
    HasConcat(s, pos, MapBits(e.used, e.groups), CountPart(e, column));
    MapRoundTrip(s, pos, e.used, e.groups);
    HasConcat(s, p1, MsbBits(|e.trees|, 3), MsbBits(|e.selectors|, 15) + SelectorPart(e, column));
    HasConcat(s, p1 + 3, MsbBits(|e.selectors|, 15), SelectorPart(e, column));
    Pow2Table();
    ReadMsbExact(s, p1, |e.trees|, 3);
    ReadMsbExact(s, p1 + 3, |e.selectors|, 15);
    InitialStackHas(e.selectors, |e.trees|);
    var p2 := p1 + 18 + |SelectorBits(e.selectors, INITIAL_STACK)|;
    HasConcat(s, p1 + 18, SelectorBits(e.selectors, INITIAL_STACK), TreePart(e, column));
    SelectorsRoundTrip(s, p1 + 18, e.selectors, |e.trees|, INITIAL_STACK);
    HasConcat(s, p2, TreesBits(e.trees), SymbolPart(e, column));
    TreesRoundTrip(s, p2, e.trees, |e.Stack()| + 2);
    SymbolPartRoundTrip(s, p2 + |TreesBits(e.trees)|, e, column, before[|e.selectors|..]);
  }

  // ---- Whole streams ----

  ghost function BlockBits(e: Choices, column: seq<Byte>, origin: nat, checksum: nat): seq<Bit>
    requires e.Suit(column)
  {
    MsbBits(BLOCK_SIGNATURE, 48)
    + (MsbBits(checksum, 32) + ([e.randomized] + (MsbBits(origin, 24) + ContentBits(e, column))))
  }

  function EndBits(checksum: nat): (b: seq<Bit>)
    ensures |b| == 80
  {
    MsbBits(END_SIGNATURE, 48) + MsbBits(checksum, 32)
  }

  lemma SignaturesFit()
    ensures BLOCK_SIGNATURE < Pow2(48) && END_SIGNATURE < Pow2(48)
  {
    ShlPow2(24, 24);
    Pow2Table();
    Shl8Bits(Pow2(24));
    ShlShl(Pow2(24), 8, 8);
    Shl8Bits(Shl(Pow2(24), 8));
    ShlShl(Pow2(24), 16, 8);
    Shl8Bits(Shl(Pow2(24), 16));
  }

  lemma EndRoundTrip(s: seq<Bit>, pos: nat, checksum: nat)
    requires checksum < U32_SIZE && Has(s, pos, EndBits(checksum))
    ensures HeaderAt(s, pos) == Some((EndHeader(checksum), pos + 80))
  {
    hide Has, MsbBits, MsbValue, Pow2;
    HasConcat(s, pos, MsbBits(END_SIGNATURE, 48), MsbBits(checksum, 32));
    SignaturesFit();
    Pow2Table();
    ReadMsbExact(s, pos, END_SIGNATURE, 48);
    ReadMsbExact(s, pos + 48, checksum, 32);
  }

  lemma HeaderRoundTrip(s: seq<Bit>, pos: nat, e: Choices, column: seq<Byte>, origin: nat, checksum: nat)
    requires e.Suit(column) && checksum < U32_SIZE && origin < 0x100_0000
    requires Has(s, pos, BlockBits(e, column, origin, checksum))
    ensures HeaderAt(s, pos) == Some((BlockHeader(checksum, origin), pos + 105))
    ensures Has(s, pos + 105, ContentBits(e, column))
  {
    hide Has, MsbBits, MsbValue, Pow2, ContentBits, Choices.Suit;
    var afterOrigin := ContentBits(e, column);
    var afterFlag := MsbBits(origin, 24) + afterOrigin;
    var afterChecksum := [e.randomized] + afterFlag;
    HasConcat(s, pos, MsbBits(BLOCK_SIGNATURE, 48), MsbBits(checksum, 32) + afterChecksum);
    HasConcat(s, pos + 48, MsbBits(checksum, 32), afterChecksum);
    HasConcat(s, pos + 80, [e.randomized], afterFlag);
    HasConcat(s, pos + 81, MsbBits(origin, 24), afterOrigin);
    SignaturesFit();
    Pow2Table();
    ReadMsbExact(s, pos, BLOCK_SIGNATURE, 48);
    ReadMsbExact(s, pos + 48, checksum, 32);
    ReadMsbExact(s, pos + 81, origin, 24);
  }

  /** The largest block of a level, which is an ASCII digit from 1 to 9. */
  function LevelSize(level: Byte): nat
    requires 0x31 <= level <= 0x39
  {
    100000 * (level - 0x30)
  }

  /** One block of a stream: the run-length form of its content, how it is written, and the checksum in its header. */
  datatype Part = Part(runs: seq<Byte>, choices: Choices, column: seq<Byte>, origin: nat, checksum: nat) {

    /** What the format demands of a block of a level. */
    ghost predicate Valid(level: Byte)
      requires 0x31 <= level <= 0x39
    {
      && |runs| > 0 && choices.Suit(column) && checksum < U32_SIZE
      && Transforms(column, origin, runs) && |column| <= LevelSize(level)
    }

    /** The bytes it stands for; with the randomized flag set, before they would be derandomized. */
    function Content(): seq<Byte> {
      Expand(runs, 0, 0)
    }

    /** What the decoder demands beyond that: a block that fits its buffer, and no running size of 20. */
    predicate Accepted() {
      |column| <= 100000 && AllReadable(choices.trees)
    }

    ghost function Bits(): (r: seq<Bit>)
      requires choices.Suit(column)
      ensures |r| >= 105
    {
      BlockBits(choices, column, origin, checksum)
    }
  }

  ghost predicate ValidParts(parts: seq<Part>, level: Byte)
    requires 0x31 <= level <= 0x39
  {
    forall i :: 0 <= i < |parts| ==> parts[i].Valid(level)
  }

  predicate AllAccepted(parts: seq<Part>) {
    forall i :: 0 <= i < |parts| ==> parts[i].Accepted()
  }

  function ContentOf(parts: seq<Part>): seq<Byte> {
    if |parts| == 0 then [] else parts[0].Content() + ContentOf(parts[1..])
  }

  /** The end of a stream with its checksum, or nothing when the stream was cut off there. */
  function EndingBits(end: Option<nat>): seq<Bit> {
    if end.Some? then EndBits(end.value) else []
  }

  /** The blocks and the end of the stream, if it has one. */
  ghost function StreamBits(parts: seq<Part>, level: Byte, end: Option<nat>): (r: seq<Bit>)
    requires 0x31 <= level <= 0x39 && ValidParts(parts, level)
    ensures end.Some? || |parts| > 0 ==> |r| >= 80
  {
    hide Choices.Suit, Transforms, EndBits;
    if |parts| == 0 then EndingBits(end) else parts[0].Bits() + StreamBits(parts[1..], level, end)
  }

  /** The last checksum in the stream. */
  function LastChecksum(parts: seq<Part>, end: Option<nat>, checksum: nat): nat {
    if end.Some? then end.value else if |parts| > 0 then parts[|parts| - 1].checksum else checksum
  }

  ghost function File(parts: seq<Part>, end: Option<nat>, version: Byte, level: Byte): seq<Byte>
    requires 0x31 <= level <= 0x39 && ValidParts(parts, level)
  {
    [0x42, 0x5a, version, level] + Pack(MsbFirst, StreamBits(parts, level, end))
  }

  lemma EndOfBlocks(bits: seq<Bit>, pos: nat, out: seq<Byte>, capacity: nat, selectors: seq<Byte>, checksum: nat)
    requires |selectors| == SELECTOR_SLOTS && checksum < U32_SIZE && pos + 80 <= |bits|
    requires Has(bits, pos, EndBits(checksum))
    ensures forall c :: Blocks(bits, pos, out, capacity, selectors, c) == Some((out, checksum))
  {
    hide Has, EndBits, HeaderAt;
    EndRoundTrip(bits, pos, checksum);
  }

  lemma BlockRead(bits: seq<Bit>, pos: nat, e: Choices, column: seq<Byte>, origin: nat, checksum: nat, selectors: seq<Byte>)
    requires e.Suit(column) && checksum < U32_SIZE && origin < 0x100_0000
    requires |selectors| == SELECTOR_SLOTS && Has(bits, pos, BlockBits(e, column, origin, checksum))
    ensures HeaderAt(bits, pos) == Some((BlockHeader(checksum, origin), pos + 105))
    ensures var content := ContentAt(bits, pos + 105, selectors);
      if AllReadable(e.trees) && |column| <= 100000 then
        && content.Some? && content.value.column == column
        && content.value.end == pos + |BlockBits(e, column, origin, checksum)|
      else content.None?
  {
    hide Has, HeaderAt, ContentAt, ContentBits, MsbBits, ValidTrees, AllReadable, Symbols, Used, UsedGroup;
    HeaderRoundTrip(bits, pos, e, column, origin, checksum);
    ContentRoundTrip(bits, pos + 105, e, column, selectors);
  }

  /** The next block of a stream. */
  lemma NextPart(bits: seq<Bit>, pos: nat, part: Part, level: Byte, out: seq<Byte>, capacity: nat, selectors: seq<Byte>,
                 checksum: nat)
    returns (after: seq<Byte>)
    requires 0x31 <= level <= 0x39 && part.Valid(level) && Has(bits, pos, part.Bits()) && |bits| >= pos + |part.Bits()|
    requires |selectors| == SELECTOR_SLOTS
    ensures |after| == SELECTOR_SLOTS
    ensures Blocks(bits, pos, out, capacity, selectors, checksum) ==
      if part.Accepted() && |out| + |part.Content()| <= capacity then
        Blocks(bits, pos + |part.Bits()|, out + part.Content(), capacity, after, part.checksum)
      else None
  {
    hide Has, HeaderAt, ContentAt, BlockBits, Output, Blocks, Choices.Suit, AllReadable, Transforms, Expand, MoreInput;
    EnoughInput(|bits|, pos, |part.Bits()|);
    OutputInverts(part.runs, part.column, part.origin);
    InverseTransform(part.column, part.origin, part.runs);
    BlockRead(bits, pos, part.choices, part.column, part.origin, part.checksum, selectors);
    if part.Accepted() {
      var content := ContentAt(bits, pos + 105, selectors).value;
      BlocksStep(bits, pos, out, capacity, selectors, checksum, BlockHeader(part.checksum, part.origin), pos + 105, content);
      after := content.selectors;
    } else {
      BlockRefused(bits, pos, out, capacity, selectors, checksum, BlockHeader(part.checksum, part.origin), pos + 105);
      after := selectors;
    }
  }

  lemma EnoughInput(size: nat, pos: nat, bits: nat)
    requires size >= pos + bits && bits >= 16
    ensures MoreInput(size / 8, pos)
  {
  }

  /** A block without content ends the stream in failure. */
  lemma BlockRefused(s: seq<Bit>, pos: nat, out: seq<Byte>, capacity: nat, selectors: seq<Byte>, checksum: nat, header: Header,
                     next: nat)
    requires |selectors| == SELECTOR_SLOTS && MoreInput(|s| / 8, pos) && HeaderAt(s, pos) == Some((header, next))
    requires header.BlockHeader? && ContentAt(s, next, selectors) == None
    ensures Blocks(s, pos, out, capacity, selectors, checksum) == None
  {
    hide HeaderAt, ContentAt, Output;
  }

  /**
   * All blocks of a stream are read back, and the checksum that remains is the last one in the stream. Nothing more
   * may follow a stream that is cut off. A block that the decoder does not accept, or for which there is no room,
   * ends in failure.
   */
  lemma {:induction false} PartsRoundTrip(bits: seq<Bit>, pos: nat, parts: seq<Part>, level: Byte, end: Option<nat>,
                                          out: seq<Byte>, capacity: nat, selectors: seq<Byte>, checksum: nat)
    requires 0x31 <= level <= 0x39 && ValidParts(parts, level) && |selectors| == SELECTOR_SLOTS && |out| <= capacity
    requires Has(bits, pos, StreamBits(parts, level, end)) && |bits| >= pos + |StreamBits(parts, level, end)|
    requires if end.Some? then end.value < U32_SIZE else !MoreInput(|bits| / 8, pos + |StreamBits(parts, level, end)|)
    ensures Blocks(bits, pos, out, capacity, selectors, checksum) ==
      if AllAccepted(parts) && |out| + |ContentOf(parts)| <= capacity then
        Some((out + ContentOf(parts), LastChecksum(parts, end, checksum)))
      else None
    decreases |parts|
  {
    hide Has, EndBits, Blocks, Choices.Suit, Transforms, Expand, Part.Bits, Part.Accepted;
    if |parts| == 0 {
      assert out + ContentOf(parts) == out;
      EndOfStream(bits, pos, end, out, capacity, selectors, checksum);
    } else {
      var rest := StreamBits(parts[1..], level, end);
      HasConcat(bits, pos, parts[0].Bits(), rest);
      var after := NextPart(bits, pos, parts[0], level, out, capacity, selectors, checksum);
      AcceptedRest(parts);
      if parts[0].Accepted() && |out| + |parts[0].Content()| <= capacity {
        PartsRoundTrip(bits, pos + |parts[0].Bits()|, parts[1..], level, end, out + parts[0].Content(), capacity, after,
                       parts[0].checksum);
        assert out + parts[0].Content() + ContentOf(parts[1..]) == out + ContentOf(parts);
      }
    }
  }

  lemma EndOfStream(bits: seq<Bit>, pos: nat, end: Option<nat>, out: seq<Byte>, capacity: nat, selectors: seq<Byte>,
                    checksum: nat)
    requires |selectors| == SELECTOR_SLOTS && Has(bits, pos, EndingBits(end)) && |bits| >= pos + |EndingBits(end)|
    requires if end.Some? then end.value < U32_SIZE else !MoreInput(|bits| / 8, pos)
    ensures Blocks(bits, pos, out, capacity, selectors, checksum) == Some((out, LastChecksum([], end, checksum)))
  {
    hide Has, EndBits, HeaderAt, ContentAt;
    if end.Some? {
      EndOfBlocks(bits, pos, out, capacity, selectors, end.value);
    }
  }

  lemma AcceptedRest(parts: seq<Part>)
    requires |parts| > 0
    ensures AllAccepted(parts) <==> parts[0].Accepted() && AllAccepted(parts[1..])
  {
    hide Part.Accepted;
    if parts[0].Accepted() && AllAccepted(parts[1..]) {
      forall i | 0 <= i < |parts| ensures parts[i].Accepted() {
        if i > 0 { assert parts[1..][i - 1].Accepted(); }
      }
    }
  }

  /**
   * bzip2 round trip for streams of any level and any number of blocks, with their end or cut off before it. The
   * decoder gives the content back exactly when it fits, every block fits the decoder's buffer of 100000 bytes, no
   * running size of a tree is 20, and the last checksum in the stream, the only one that is looked at, is that of the
   * whole content. For blocks with the randomized flag set the content is the bytes before derandomization.
   */
  lemma StreamRoundTrip(parts: seq<Part>, end: Option<nat>, version: Byte, level: Byte, capacity: nat)
    requires 0x31 <= level <= 0x39 && ValidParts(parts, level)
    requires if end.Some? then end.value < U32_SIZE else |parts| > 0
    ensures Decompressed(File(parts, end, version, level), capacity) ==
      if && AllAccepted(parts) && |ContentOf(parts)| <= capacity
         && LastChecksum(parts, end, 0) == Crc.Checksum(POLYNOMIAL, 0, ContentOf(parts))
      then Some(ContentOf(parts))
      else None
  {
    hide Has, Pack, BitsOf, Crc.Checksum, NoSelectorsYet, Blocks, StreamBits, ValidParts, ContentOf, AllAccepted;
    var stream := StreamBits(parts, level, end);
    var data := File(parts, end, version, level);
    var bits := BitsOf(MsbFirst, Pack(MsbFirst, stream));
    assert data[4..] == Pack(MsbFirst, stream);
    PackedHas(MsbFirst, stream);
    PartsRoundTrip(bits, 0, parts, level, end, [], capacity, NoSelectorsYet(), 0);
    assert [] + ContentOf(parts) == ContentOf(parts);
  }

  /** A stream that is cut off behind a single block, before its end marker, is accepted like the whole one. */
  lemma CutOffAccepted(part: Part, version: Byte, level: Byte, capacity: nat)
    requires 0x31 <= level <= 0x39 && ValidParts([part], level) && part.checksum == BlockChecksum(part.Content()) as nat
    ensures Decompressed(File([part], None, version, level), capacity) ==
      if part.Accepted() && |part.Content()| <= capacity then Some(part.Content()) else None
  {
    hide Decompressed, File, Part.Accepted, Part.Valid, BlockChecksum;
    var parts := [part];
    assert ContentOf(parts[1..]) == [] && ContentOf(parts) == part.Content();
    assert parts[0] == part;
    CutOffChecksum(part);
    StreamRoundTrip(parts, None, version, level, capacity);
  }

  lemma CutOffChecksum(part: Part)
    ensures BlockChecksum(part.Content()) as nat == Crc.Checksum(POLYNOMIAL, 0, part.Content())
  {
    hide CrcBits.BitCrc;
  }

  /** The checksum that the format puts at the end: the block checksums, rotated by one bit from block to block. */
  ghost function Combined(parts: seq<Part>): bv32 {
    if |parts| == 0 then 0
    else
      var before := Combined(parts[..|parts| - 1]);
      Crc32.Xor(Crc32.Shl1(before) | (before >> 31), BlockChecksum(parts[|parts| - 1].Content()))
  }

  function BlockChecksum(content: seq<Byte>): bv32 {
    CrcBits.BitCrc(POLYNOMIAL, 0, content)
  }

  /** Up to one block that is the checksum of the content, so such streams are always accepted. */
  lemma CombinedOfOne(parts: seq<Part>)
    requires |parts| <= 1
    ensures Combined(parts) as nat == Crc.Checksum(POLYNOMIAL, 0, ContentOf(parts))
  {
    hide CrcBits.BitCrc;
    if |parts| == 0 {
      EmptyCrc();
    } else {
      assert parts[..0] == [] && ContentOf(parts[1..]) == [];
      assert ContentOf(parts) == parts[0].Content();
      XorZero(BlockChecksum(parts[0].Content()));
    }
  }

  lemma EmptyCrc()
    ensures CrcBits.BitCrc(POLYNOMIAL, 0, []) == 0
  {
    CrcBits.NoBits(POLYNOMIAL, Crc32.Xor(0, Crc32.ONES), []);
  }

  lemma XorZero(x: bv32)
    ensures Crc32.Xor(Crc32.Shl1(0) | (0 as bv32 >> 31), x) == x
  {
  }

  /** bzip2 round trip: a stream of no more than one block gives its content back exactly when the block is accepted. */
  lemma RoundTrip(parts: seq<Part>, version: Byte, level: Byte, capacity: nat)
    requires 0x31 <= level <= 0x39 && ValidParts(parts, level) && |parts| <= 1
    ensures Decompressed(File(parts, Some(Combined(parts) as nat), version, level), capacity) ==
      if AllAccepted(parts) && |ContentOf(parts)| <= capacity then Some(ContentOf(parts)) else None
  {
    hide Combined, ContentOf, ValidParts, Crc.Checksum, AllAccepted, Decompressed, File;
    CombinedOfOne(parts);
    StreamRoundTrip(parts, Some(Combined(parts) as nat), version, level, capacity);
  }
}
