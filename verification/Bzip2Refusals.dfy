/** Streams that follow the bzip2 format and that the decoder refuses. */
module Bzip2Refusals {
  import opened Options
  import opened Words
  import opened HuffmanCodes
  import opened RunLength
  import opened Bzip2Trees
  import opened Bzip2Format
  import opened Bzip2Encoder
  import opened Bzip2AnyString
  import Crc32
  import CrcBits = Crc32Bits
  import Crc = Crc32Contexts

  // ---- A block of level 9 ----

  /** Zeros and ones in turn. */
  function Alternating(n: nat): (r: seq<Byte>)
    ensures |r| == n && forall i :: 0 <= i < n ==> r[i] == i % 2
  {
    seq<Byte>(n, i requires 0 <= i < n => i % 2)
  }

  /** Run-length coding leaves a string without runs alone. */
  lemma {:induction false} NoRuns(s: seq<Byte>)
    requires forall i, j :: 0 <= i && j == i + 1 && j < |s| ==> s[i] != s[j]
    ensures Compress(s) == s
    decreases |s|
  {
    if |s| > 0 {
      ShortestRun(s);
      NoRuns(s[1..]);
      assert s[..1] + s[1..] == s;
    }
  }

  lemma ShortestRun(s: seq<Byte>)
    requires |s| > 0 && (|s| > 1 ==> s[0] != s[1])
    ensures RunSize(s) == 1
  {
  }

  /** A file of level 9 is refused because its block has 100001 bytes. */
  lemma LargeBlockRefused(capacity: nat) returns (parts: seq<Part>)
    ensures ValidParts(parts, 0x39) && |parts| == 1 && ContentOf(parts) == Alternating(100001)
    ensures Decompressed(File(parts, Some(Combined(parts) as nat), 0x68, 0x39), capacity) == None
  {
    hide Compress, Part.Valid, Decompressed, File, Combined;
    var s := Alternating(100001);
    NoRuns(s);
    parts := EveryStringDecompresses(s, 0x39, capacity);
    assert |parts| == 0 ==> ContentOf(parts) == [];
  }

  // ---- A code of 20 bits ----

  /** Ten codes of 7 bits, 235 of 8, one each of 9 to 19, and two of 20. */
  function DeepTree(): (r: seq<Byte>)
    ensures |r| == 258
    ensures forall i :: 0 <= i < 258 ==> r[i] == if i < 10 then 7 else if i < 245 then 8 else if i < 257 then i - 236 else 20
  {
    seq<Byte>(258, i requires 0 <= i < 258 => if i < 10 then 7 else if i < 245 then 8 else if i < 257 then i - 236 else 20)
  }

  /** From entry 245 on every code takes half of what is left. */
  lemma {:induction false} DeepKraft(sizes: seq<nat>, n: nat)
    requires sizes == DeepTree() && 245 <= n <= 257
    ensures Kraft(sizes[..n], LARGEST) + Pow2(257 - n) == Pow2(LARGEST)
  {
    hide Kraft, DeepTree, Pow2;
    if n == 245 {
      NoSizes(LARGEST);
      assert sizes[..10][..0] == [] && sizes[..245][..10] == sizes[..10];
      KraftRun(sizes[..10], 0, 7, LARGEST);
      KraftRun(sizes[..245], 10, 8, LARGEST);
      DeepSum();
    } else {
      DeepKraft(sizes, n - 1);
      KraftNext(sizes, n - 1);
      Pow2Step(257 - n);
    }
  }

  lemma KraftNext(sizes: seq<nat>, n: nat)
    requires n < |sizes| && 0 < sizes[n] && forall i :: 0 <= i < |sizes| ==> sizes[i] <= LARGEST
    ensures Kraft(sizes[..n + 1], LARGEST) == Kraft(sizes[..n], LARGEST) + Pow2(LARGEST - sizes[n])
  {
    hide Pow2;
    assert sizes[..n + 1][..n] == sizes[..n];
  }

  lemma DeepSum()
    ensures Copies(10, Pow2(LARGEST - 7)) + Copies(235, Pow2(LARGEST - 8)) + Pow2(257 - 245) == Pow2(LARGEST)
  {
    Pow2Table();
    ShlPow2(12, 8);
    Shl8Bits(Pow2(12));
    assert Pow2(13) == 2 * Pow2(12);
  }

  /** This is a code of the format, with a size that the decoder refuses. */
  lemma DeepTreeSuits()
    ensures FullCode(DeepTree()) && !AllSmall(DeepTree())
  {
    hide Kraft, DeepTree, Pow2;
    var sizes: seq<nat> := DeepTree();
    DeepKraft(sizes, 257);
    KraftNext(sizes, 257);
    assert sizes[..257 + 1] == sizes && sizes[257] == LARGEST;
    assert Pow2(0) == 1 by { Pow2Table(); }
    assert sizes[0] != 0;
  }

  /** A file of one block, with one zero byte as its content, that is refused because of its trees. */
  lemma TreeRefused(tree: TreeForm, level: Byte, capacity: nat) returns (part: Part)
    requires 0x31 <= level <= 0x39 && tree.Valid(258) && !tree.Readable()
    ensures ValidParts([part], level) && part.choices.trees == [tree, tree] && ContentOf([part]) == [0]
    ensures Decompressed(File([part], Some(Combined([part]) as nat), 0x68, level), capacity) == None
  {
    hide Expand, Part.Valid, Part.Accepted, Decompressed, File, Combined, BlockChecksum, TreeForm.Valid, TreeForm.Readable;
    TreeWalks(tree, 258);
    part := PlainPart([0], tree, level);
    ZeroContent(part);
    OneAccepted(part, level);
    Bzip2Encoder.RoundTrip([part], 0x68, level, capacity);
  }

  lemma ZeroContent(part: Part)
    requires part.runs == [0]
    ensures part.Content() == [0] && ContentOf([part]) == [0]
  {
    assert Expand([0][1..], 0, 1) == [] && ContentOf([part][1..]) == [];
  }

  /** A file whose trees have codes of 20 bits is refused at every level. */
  lemma DeepTreeRefused(level: Byte, capacity: nat) returns (part: Part)
    requires 0x31 <= level <= 0x39
    ensures ValidParts([part], level) && ContentOf([part]) == [0]
    ensures forall t :: 0 <= t < |part.choices.trees| ==> part.choices.trees[t].Sizes() == DeepTree()
    ensures Decompressed(File([part], Some(Combined([part]) as nat), 0x68, level), capacity) == None
  {
    hide Expand, Decompressed, File, Combined, DeepTree, FullCode, TreeForm.Valid, TreeForm.Readable, Part.Valid;
    DeepTreeSuits();
    var tree := FormOf(7, DeepTree());
    TreeWalks(tree, 258);
    part := TreeRefused(tree, level, capacity);
  }

  /** A file whose trees have sizes of 8 and 9 only, but start from 20, is refused as well. */
  lemma HighStartRefused(level: Byte, capacity: nat) returns (part: Part)
    requires 0x31 <= level <= 0x39
    ensures ValidParts([part], level) && ContentOf([part]) == [0]
    ensures forall t :: 0 <= t < |part.choices.trees| ==>
      part.choices.trees[t].start == 20 && part.choices.trees[t].Sizes() == FlatTree()
    ensures Decompressed(File([part], Some(Combined([part]) as nat), 0x68, level), capacity) == None
  {
    hide Expand, Decompressed, File, Combined, FlatTree, FullCode, TreeForm.Valid, TreeForm.Readable, Part.Valid;
    FlatTreeSuits();
    var tree := FormOf(20, FlatTree());
    TreeWalks(tree, 258);
    part := TreeRefused(tree, level, capacity);
  }

  // ---- Two blocks ----

  /** Eight division steps, one after the other. */
  lemma EightSteps(c: bv32)
    ensures Crc32.Steps(POLYNOMIAL, c, 8) ==
      OneStep(OneStep(OneStep(OneStep(OneStep(OneStep(OneStep(OneStep(c))))))))
  {
    hide Crc32.Step;
    var p := POLYNOMIAL;
    assert Crc32.Steps(p, c, 1) == OneStep(Crc32.Steps(p, c, 0)) && Crc32.Steps(p, c, 2) == OneStep(Crc32.Steps(p, c, 1));
    assert Crc32.Steps(p, c, 3) == OneStep(Crc32.Steps(p, c, 2)) && Crc32.Steps(p, c, 4) == OneStep(Crc32.Steps(p, c, 3));
    assert Crc32.Steps(p, c, 5) == OneStep(Crc32.Steps(p, c, 4)) && Crc32.Steps(p, c, 6) == OneStep(Crc32.Steps(p, c, 5));
    assert Crc32.Steps(p, c, 7) == OneStep(Crc32.Steps(p, c, 6)) && Crc32.Steps(p, c, 8) == OneStep(Crc32.Steps(p, c, 7));
  }

  function OneStep(c: bv32): bv32 {
    Crc32.Step(POLYNOMIAL, c)
  }

  lemma FirstZeroByte()
    ensures Crc32.Steps(POLYNOMIAL, 0xffff_ffff, 8) == 0x4e08_bfb4
  {
    EightSteps(0xffff_ffff);
    hide Crc32.Steps;
    assert OneStep(0xffff_ffff) == 0xfb3e_e249;
    assert OneStep(0xfb3e_e249) == 0xf2bc_d925;
    assert OneStep(0xf2bc_d925) == 0xe1b8_affd;
    assert OneStep(0xe1b8_affd) == 0xc7b0_424d;
    assert OneStep(0xc7b0_424d) == 0x8ba1_992d;
    assert OneStep(0x8ba1_992d) == 0x1382_2fed;
    assert OneStep(0x1382_2fed) == 0x2704_5fda;
    assert OneStep(0x2704_5fda) == 0x4e08_bfb4;
  }

  lemma SecondZeroByte()
    ensures Crc32.Steps(POLYNOMIAL, 0x4e08_bfb4, 8) == 0x00b7_647d
  {
    EightSteps(0x4e08_bfb4);
    hide Crc32.Steps;
    assert OneStep(0x4e08_bfb4) == 0x9c11_7f68;
    assert OneStep(0x9c11_7f68) == 0x3ce3_e367;
    assert OneStep(0x3ce3_e367) == 0x79c7_c6ce;
    assert OneStep(0x79c7_c6ce) == 0xf38f_8d9c;
    assert OneStep(0xf38f_8d9c) == 0xe3de_068f;
    assert OneStep(0xe3de_068f) == 0xc37d_10a9;
    assert OneStep(0xc37d_10a9) == 0x823b_3ce5;
    assert OneStep(0x823b_3ce5) == 0x00b7_647d;
  }

  lemma EnterZero(c: bv32)
    ensures Crc32.Enter(c, 0) == c
  {
  }

  lemma ZeroRemainders()
    ensures Crc32.Remainder(POLYNOMIAL, 0xffff_ffff, [0]) == 0x4e08_bfb4
    ensures Crc32.Remainder(POLYNOMIAL, 0xffff_ffff, [0, 0]) == 0x00b7_647d
  {
    hide Crc32.Steps, Crc32.Enter;
    FirstZeroByte();
    SecondZeroByte();
    EnterZero(0xffff_ffff);
    EnterZero(0x4e08_bfb4);
    var one, two: seq<bv8> := [0], [0, 0];
    assert one[..0] == [] && two[..1] == one;
  }

  lemma ZeroChecksums()
    ensures BlockChecksum([0]) == 0xb1f7_404b && BlockChecksum([0, 0]) == 0xff48_9b82
  {
    hide Crc32.Remainder, CrcBits.BitCrc, CrcBits.Octets;
    ZeroOctets();
    ZeroRemainders();
    CrcBits.CrcIsBitCrc(POLYNOMIAL, 0, [0]);
    CrcBits.CrcIsBitCrc(POLYNOMIAL, 0, [0, 0]);
  }

  lemma ZeroOctets()
    ensures CrcBits.Octets([0]) == [0] && CrcBits.Octets([0, 0]) == [0, 0]
  {
    hide CrcBits.Octet;
    ZeroOctet();
  }

  lemma ZeroOctet()
    ensures CrcBits.Octet(0) == 0
  {
  }

  /** The format's own checksum over two blocks that hold a zero byte each is not the checksum of the two bytes. */
  lemma CombinedDiffers(parts: seq<Part>)
    requires |parts| == 2 && parts[0].Content() == [0] && parts[1].Content() == [0]
    ensures ContentOf(parts) == [0, 0]
    ensures Combined(parts) as nat != Crc.Checksum(POLYNOMIAL, 0, ContentOf(parts))
  {
    hide CrcBits.BitCrc;
    ZeroChecksums();
    var first := parts[..1];
    assert parts[1..][1..] == [] && first[..0] == [];
    assert ContentOf(parts[1..]) == [0] + [];
    XorZero(BlockChecksum([0]));
    assert Combined(first) == 0xb1f7_404b;
  }

  /** A stream of two blocks is refused because its checksum, made as the format says, is not that of all content. */
  lemma TwoBlocksRefused(capacity: nat) returns (parts: seq<Part>)
    ensures ValidParts(parts, 0x31) && |parts| == 2 && ContentOf(parts) == [0, 0] && AllAccepted(parts)
    ensures forall i :: 0 <= i < |parts| ==> parts[i].checksum == BlockChecksum(parts[i].Content()) as nat
    ensures Decompressed(File(parts, Some(Combined(parts) as nat), 0x68, 0x31), capacity) == None
  {
    hide Part.Valid, Part.Accepted, Decompressed, File, Combined, ContentOf, BlockChecksum, Crc.Checksum, FlatTree, FullCode, Expand,
         TreeForm.Valid, TreeForm.Readable;
    FlatTreeSuits();
    var tree := FormOf(8, FlatTree());
    TreeWalks(tree, 258);
    var part := PlainPart([0], tree, 0x31);
    ZeroContent(part);
    parts := [part, part];
    CombinedDiffers(parts);
    StreamRoundTrip(parts, Some(Combined(parts) as nat), 0x68, 0x31, capacity);
  }
}
