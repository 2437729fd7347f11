/** What a bzip2 stream stands for. */
module Bzip2Format {
  import opened Options
  import opened Words
  import opened Bits
  import opened Bzip2Selectors
  import opened Bzip2Trees
  import opened Bzip2SymbolStack
  import opened Bzip2Transform
  import opened Bzip2BlockData
  import Crc = Crc32Contexts

  const BLOCK_SIGNATURE: nat := 0x314159265359
  const END_SIGNATURE: nat := 0x177245385090
  const SELECTOR_SLOTS: nat := 32769
  const POLYNOMIAL: bv32 := 0x04c1_1db7

  // ---- Headers ----

  datatype Header = EndHeader(checksum: nat) | BlockHeader(checksum: nat, origin: nat)

  function HeaderAt(s: seq<Bit>, pos: nat): Option<(Header, nat)> {
    var signature := MsbValue(s, pos, 48);
    var checksum := MsbValue(s, pos + 48, 32);
    if signature == END_SIGNATURE then Some((EndHeader(checksum), pos + 80))
    else if signature == BLOCK_SIGNATURE then Some((BlockHeader(checksum, MsbValue(s, pos + 81, 24)), pos + 105))
    else None
  }

  function BigEndian(a: nat, b: nat, c: nat, d: nat, e: nat, f: nat): nat {
    256 * (256 * (256 * (256 * (256 * a + b) + c) + d) + e) + f
  }

  /** The first bytes of a stream as a number. */
  lemma SixBytes(data: seq<Byte>)
    requires |data| >= 6
    ensures MsbValue(BitsOf(MsbFirst, data), 0, 48) == BigEndian(data[0], data[1], data[2], data[3], data[4], data[5])
  {
    hide MsbValue, BitsOf, Shl;
    var s := BitsOf(MsbFirst, data);
    NextByte(data, 0);
    NextByte(data, 1);
    NextByte(data, 2);
    NextByte(data, 3);
    NextByte(data, 4);
    NextByte(data, 5);
    NoBitsYet(s);
  }

  lemma NextByte(data: seq<Byte>, j: nat)
    requires j < |data|
    ensures MsbValue(BitsOf(MsbFirst, data), 0, 8 * j + 8) == 256 * MsbValue(BitsOf(MsbFirst, data), 0, 8 * j) + data[j]
  {
    hide MsbValue, BitsOf, Shl;
    var s := BitsOf(MsbFirst, data);
    MsbSplit(s, 0, 8 * j, 8);
    Shl8Bits(MsbValue(s, 0, 8 * j));
    ByteIsValue(MsbFirst, data, j);
  }

  lemma NoBitsYet(s: seq<Bit>)
    ensures MsbValue(s, 0, 0) == 0
  {
  }

  /** Blocks start with the digits of pi and the stream ends with those of its square root. */
  lemma SignatureBytes(data: seq<Byte>)
    requires |data| >= 6
    ensures var header := HeaderAt(BitsOf(MsbFirst, data), 0);
      && (header.Some? && header.value.0.BlockHeader? <==> data[..6] == [0x31, 0x41, 0x59, 0x26, 0x53, 0x59])
      && (header.Some? && header.value.0.EndHeader? <==> data[..6] == [0x17, 0x72, 0x45, 0x38, 0x50, 0x90])
  {
    hide MsbValue, BitsOf;
    SixBytes(data);
    var first := data[..6];
    assert first == [data[0], data[1], data[2], data[3], data[4], data[5]];
    BlockDigits(data[0], data[1], data[2], data[3], data[4], data[5]);
    EndDigits(data[0], data[1], data[2], data[3], data[4], data[5]);
  }

  lemma BlockDigits(a: Byte, b: Byte, c: Byte, d: Byte, e: Byte, f: Byte)
    ensures BigEndian(a, b, c, d, e, f) == BLOCK_SIGNATURE <==>
      a == 0x31 && b == 0x41 && c == 0x59 && d == 0x26 && e == 0x53 && f == 0x59
  {
  }

  lemma EndDigits(a: Byte, b: Byte, c: Byte, d: Byte, e: Byte, f: Byte)
    ensures BigEndian(a, b, c, d, e, f) == END_SIGNATURE <==>
      a == 0x17 && b == 0x72 && c == 0x45 && d == 0x38 && e == 0x50 && f == 0x90
  {
  }

  // ---- Blocks ----

  ghost function TreesAt(s: seq<Bit>, pos: nat, trees: nat, count: nat): (r: Option<(seq<seq<nat>>, nat)>)
    ensures r.Some? ==> r.value.1 >= pos
    ensures r.Some? ==> |r.value.0| == trees && forall t :: 0 <= t < trees ==> |r.value.0[t]| == count
    decreases trees
  {
    if trees == 0 then Some(([], pos))
    else
      match Tree(s, pos, count)
      case None => None
      case Some((first, next)) => After([first], TreesAt(s, next, trees - 1, count))
  }

  /** The part of a block after its header: the bytes of the block, the position after it and the selectors. */
  datatype Content = Content(column: seq<Byte>, end: nat, selectors: seq<Byte>)

  ghost function ContentAt(s: seq<Bit>, pos: nat, selectors: seq<Byte>): (r: Option<Content>)
    requires |selectors| == SELECTOR_SLOTS
    ensures r.Some? ==> |r.value.selectors| == SELECTOR_SLOTS && |r.value.column| <= BLOCK_SIZE && r.value.end >= pos
  {
    var (stack, p1) := InUse(s, pos);
    var trees, count := MsbValue(s, p1, 3), MsbValue(s, p1 + 3, 15);
    CountsFit(s, p1);
    match Selectors(s, p1 + 18, count, trees, INITIAL_STACK)
    case None => None
    case Some((first, p2)) =>
      var selectors' := first + selectors[count..];
      match TreesAt(s, p2, trees, |stack| + 2)
      case None => None
      case Some((sizes, p3)) =>
        match Block(Coding(sizes, selectors', count, |stack| + 1), s, p3, 0, selectors'[0], stack, [])
        case None => None
        case Some((column, end)) =>
          if |column| > BLOCK_SIZE then None else Some(Content(column, end, selectors'))
  }

  lemma CountsFit(s: seq<Bit>, pos: nat)
    ensures MsbValue(s, pos, 3) <= |INITIAL_STACK| && MsbValue(s, pos + 3, 15) < SELECTOR_SLOTS
  {
    Pow2Table();
  }

  // ---- Streams ----

  /** The output of the blocks from pos on appended to `out`, and the last checksum that was read. */
  ghost function Blocks(s: seq<Bit>, pos: nat, out: seq<Byte>, capacity: nat, selectors: seq<Byte>, checksum: nat)
    : Option<(seq<Byte>, nat)>
    requires |selectors| == SELECTOR_SLOTS
    decreases |s| - pos
  {
    if !MoreInput(|s| / 8, pos) then Some((out, checksum))
    else
      match HeaderAt(s, pos)
      case None => None
      case Some((EndHeader(checksum'), _)) => Some((out, checksum'))
      case Some((BlockHeader(checksum', origin), next)) =>
        if origin >= BLOCK_SIZE then None
        else
          match ContentAt(s, next, selectors)
          case None => None
          case Some(content) =>
            var bytes := Output(content.column, origin);
            if |out| + |bytes| > capacity then None
            else Blocks(s, content.end, out + bytes, capacity, content.selectors, checksum')
  }

  /** One block of a stream. */
  lemma BlocksStep(s: seq<Bit>, pos: nat, out: seq<Byte>, capacity: nat, selectors: seq<Byte>, checksum: nat,
                   header: Header, next: nat, content: Content)
    requires |selectors| == SELECTOR_SLOTS && MoreInput(|s| / 8, pos) && |content.selectors| == SELECTOR_SLOTS
    requires HeaderAt(s, pos) == Some((header, next)) && header.BlockHeader? && header.origin < BLOCK_SIZE
    requires ContentAt(s, next, selectors) == Some(content)
    ensures var bytes := Output(content.column, header.origin);
      Blocks(s, pos, out, capacity, selectors, checksum) ==
      if |out| + |bytes| > capacity then None
      else Blocks(s, content.end, out + bytes, capacity, content.selectors, header.checksum)
  {
    hide HeaderAt, ContentAt, Output;
  }

  /** The initial, all zero selectors. */
  function NoSelectorsYet(): (r: seq<Byte>)
    ensures |r| == SELECTOR_SLOTS
  {
    seq(SELECTOR_SLOTS, _ => 0)
  }

  predicate StreamHeader(data: seq<Byte>) {
    |data| >= 4 && data[0] == 0x42 && data[1] == 0x5a && 0x31 <= data[3] <= 0x39
  }

  /** What a file of bzip2 data decompresses to in a buffer of the given capacity. */
  ghost function Decompressed(data: seq<Byte>, capacity: nat): Option<seq<Byte>> {
    if |data| < 14 || !StreamHeader(data) then None
    else
      match Blocks(BitsOf(MsbFirst, data[4..]), 0, [], capacity, NoSelectorsYet(), 0)
      case None => None
      case Some((out, checksum)) =>
        if checksum == Crc.Checksum(POLYNOMIAL, 0, out) then Some(out) else None
  }

  /** What a file needs at least: its magic bytes, a level from 1 to 9, and ten bytes behind them. */
  lemma FileLimits(data: seq<Byte>, capacity: nat)
    ensures Decompressed(data, capacity).Some? ==>
      |data| >= 14 && data[..2] == [0x42, 0x5a] && 0x31 <= data[3] <= 0x39
  {
    hide Blocks, BitsOf;
  }
}
