/** What DEFLATE data stands for (section 3.2 of RFC 1951), over bits that are zero past the end of the data. */
module DeflateFormat {
  import opened Options
  import opened Words
  import opened Bits
  import opened HuffmanCodes
  import opened Lz77

  const LARGEST: nat := 15
  const END_OF_BLOCK: nat := 256

  const LENGTH_BASE: seq<nat> := [3, 4, 5, 6, 7, 8, 9, 10, 11, 13, 15, 17, 19, 23, 27, 31, 35, 43, 51, 59,
                                  67, 83, 99, 115, 131, 163, 195, 227, 258]
  const LENGTH_EXTRA: seq<nat> := [0, 0, 0, 0, 0, 0, 0, 0, 1, 1, 1, 1, 2, 2, 2, 2, 3, 3, 3, 3,
                                   4, 4, 4, 4, 5, 5, 5, 5, 0]
  const DISTANCE_BASE: seq<nat> := [1, 2, 3, 4, 5, 7, 9, 13, 17, 25, 33, 49, 65, 97, 129, 193, 257, 385, 513, 769,
                                    1025, 1537, 2049, 3073, 4097, 6145, 8193, 12289, 16385, 24577]
  const DISTANCE_EXTRA: seq<nat> := [0, 0, 0, 0, 1, 1, 2, 2, 3, 3, 4, 4, 5, 5, 6, 6, 7, 7, 8, 8,
                                     9, 9, 10, 10, 11, 11, 12, 12, 13, 13]

  /** Order in which the sizes of the code-length code are stored. */
  const SIZE_SEQUENCE: seq<nat> := [16, 17, 18, 0, 8, 7, 9, 6, 10, 5, 11, 4, 12, 3, 13, 2, 14, 1, 15]

  // ---- Compressed blocks ----

  /** A pair of literal/length and distance codes. */
  datatype Codes = Codes(literals: seq<nat>, distances: seq<nat>) {
    ghost predicate Valid() {
      |literals| <= 288 && |distances| <= 30 && Acceptable(literals, LARGEST) && Acceptable(distances, LARGEST)
    }
  }

  function LengthBase(k: nat): (b: nat)
    requires k < 29
    ensures 3 <= b <= 258
  {
    LENGTH_BASE[k]
  }

  function LengthExtra(k: nat): (b: nat)
    requires k < 29
    ensures b <= 5
  {
    LENGTH_EXTRA[k]
  }

  function DistanceBase(k: nat): (b: nat)
    requires k < 30
    ensures 1 <= b <= 24577
  {
    DISTANCE_BASE[k]
  }

  function DistanceExtra(k: nat): (b: nat)
    requires k < 30
    ensures b <= 13
  {
    DISTANCE_EXTRA[k]
  }

  /** The length codes of section 3.2.5 of RFC 1951: four to each number of extra bits, and one for 258 alone. */
  lemma LengthClosed(k: nat)
    requires k < 29
    ensures k < 8 ==> LengthBase(k) == k + 3 && LengthExtra(k) == 0
    ensures 8 <= k < 28 ==> LengthExtra(k) == k / 4 - 1 && LengthBase(k) == 3 + Shl(4 + k % 4, k / 4 - 1)
    ensures k == 28 ==> LengthBase(k) == 258 && LengthExtra(k) == 0
  {
    hide LengthBase, LengthExtra;
    LengthExtras(k);
    LengthBases(k);
  }

  lemma LengthExtras(k: nat)
    requires k < 29
    ensures LengthExtra(k) == if k < 8 || k == 28 then 0 else k / 4 - 1
  {
  }

  lemma LengthBases(k: nat)
    requires k < 29
    ensures LengthBase(k) == if k < 8 then k + 3 else if k == 28 then 258 else 3 + Shl(4 + k % 4, k / 4 - 1)
  {
    hide Shl;
    SmallShifts(4 + k % 4);
    if k < 16 {
    } else if k < 20 {
    } else if k < 24 {
    }
  }

  /** The distance codes: two to each number of extra bits. */
  lemma DistanceClosed(k: nat)
    requires k < 30
    ensures k < 4 ==> DistanceBase(k) == k + 1 && DistanceExtra(k) == 0
    ensures 4 <= k ==> DistanceExtra(k) == k / 2 - 1 && DistanceBase(k) == 1 + Shl(2 + k % 2, k / 2 - 1)
  {
    hide DistanceBase, DistanceExtra;
    DistanceExtras(k);
    if k < 16 {
      NearBases(k);
    } else {
      FarBases(k);
    }
  }

  lemma DistanceExtras(k: nat)
    requires k < 30
    ensures DistanceExtra(k) == if k < 4 then 0 else k / 2 - 1
  {
  }

  lemma NearBases(k: nat)
    requires k < 16
    ensures DistanceBase(k) == if k < 4 then k + 1 else 1 + Shl(2 + k % 2, k / 2 - 1)
  {
    hide Shl;
    SmallShifts(2 + k % 2);
  }

  lemma FarBases(k: nat)
    requires 16 <= k < 30
    ensures DistanceBase(k) == 1 + Shl(2 + k % 2, k / 2 - 1)
  {
    hide Shl;
    SmallShifts(2 + k % 2);
  }

  lemma SmallShifts(x: nat)
    ensures Shl(x, 1) == 2 * x && Shl(x, 2) == 4 * x && Shl(x, 3) == 8 * x && Shl(x, 4) == 16 * x && Shl(x, 5) == 32 * x
    ensures Shl(x, 6) == 64 * x && Shl(x, 7) == 128 * x && Shl(x, 8) == 256 * x && Shl(x, 9) == 512 * x
    ensures Shl(x, 10) == 1024 * x && Shl(x, 11) == 2048 * x && Shl(x, 12) == 4096 * x && Shl(x, 13) == 8192 * x
  {
    Shl8Bits(x);
    assert Shl(x, 4) == 2 * Shl(x, 3) && Shl(x, 3) == 2 * Shl(x, 2) && Shl(x, 2) == 2 * Shl(x, 1) && Shl(x, 1) == 2 * Shl(x, 0);
    assert Shl(x, 7) == 2 * Shl(x, 6) && Shl(x, 6) == 2 * Shl(x, 5) && Shl(x, 5) == 2 * Shl(x, 4);
    assert Shl(x, 10) == 2 * Shl(x, 9) && Shl(x, 9) == 2 * Shl(x, 8);
    assert Shl(x, 13) == 2 * Shl(x, 12) && Shl(x, 12) == 2 * Shl(x, 11) && Shl(x, 11) == 2 * Shl(x, 10);
  }

  /** No code goes beyond the largest length and the largest distance. */
  lemma CodeLimits(k: nat)
    ensures k < 29 ==> LengthBase(k) + Pow2(LengthExtra(k)) <= 259
    ensures k < 30 ==> DistanceBase(k) + Pow2(DistanceExtra(k)) <= 32769
  {
    Pow2Table();
    MorePowers();
  }

  datatype Match = Match(length: nat, distance: nat, end: nat)

  /** The rest of a match whose length symbol has been read. */
  ghost function MatchAt(distances: seq<nat>, s: seq<Bit>, pos: nat, symbol: nat): (r: Option<Match>)
    requires 257 <= symbol < 286 && |distances| <= 30
    ensures r.Some? ==> 3 <= r.value.length <= 258 && 1 <= r.value.distance <= 32768 && r.value.end >= pos
  {
    hide LengthBase, LengthExtra, DistanceBase, DistanceExtra, LsbValue;
    var k := symbol - 257;
    CodeLimits(k);
    var length := LengthBase(k) + LsbValue(s, pos, LengthExtra(k));
    var p1 := pos + LengthExtra(k);
    match Decode(distances, s, p1)
    case None => None
    case Some(d) =>
      CodeLimits(d);
      var p2 := p1 + distances[d];
      Some(Match(length, DistanceBase(d) + LsbValue(s, p2, DistanceExtra(d)), p2 + DistanceExtra(d)))
  }

  /** The output after the symbols from pos up to the end-of-block symbol, and the position after that. */
  ghost function CompressedBlock(c: Codes, s: seq<Bit>, pos: nat, out: seq<Byte>, capacity: nat)
    : (r: Option<(seq<Byte>, nat)>)
    requires |c.literals| <= 288 && |c.distances| <= 30
    ensures r.Some? ==> r.value.1 >= pos && |r.value.0| >= |out|
    ensures r.Some? && |out| <= capacity ==> |r.value.0| <= capacity
    decreases capacity - |out|
  {
    match Decode(c.literals, s, pos)
    case None => None
    case Some(symbol) =>
      var next := pos + c.literals[symbol];
      if symbol == END_OF_BLOCK then Some((out, next))
      else if symbol < 256 then
        if |out| >= capacity then None else CompressedBlock(c, s, next, out + [symbol], capacity)
      else if symbol >= 286 then None
      else
        match MatchAt(c.distances, s, next, symbol)
        case None => None
        case Some(m) =>
          if m.distance > |out| || m.length > capacity - |out| then None
          else CompressedBlock(c, s, m.end, CopyMatch(out, m.distance, m.length), capacity)
  }

  /** One symbol of a compressed block. */
  lemma BlockCases(c: Codes, s: seq<Bit>, pos: nat, out: seq<Byte>, capacity: nat)
    requires |c.literals| <= 288 && |c.distances| <= 30
    ensures var symbol := Decode(c.literals, s, pos);
      var r := CompressedBlock(c, s, pos, out, capacity);
      if symbol.None? then r == None
      else
        var next := pos + c.literals[symbol.value];
        if symbol.value == END_OF_BLOCK then r == Some((out, next))
        else if symbol.value < 256 then
          r == if |out| >= capacity then None else CompressedBlock(c, s, next, out + [symbol.value], capacity)
        else if symbol.value >= 286 then r == None
        else
          var m := MatchAt(c.distances, s, next, symbol.value);
          if m.None? || m.value.distance > |out| || m.value.length > capacity - |out| then r == None
          else r == CompressedBlock(c, s, m.value.end, CopyMatch(out, m.value.distance, m.value.length), capacity)
  {
    hide Decode, MatchAt, CopyMatch;
  }

  // ---- Fixed codes ----

  function FixedLiterals(): (sizes: seq<Byte>)
    ensures |sizes| == 288
  {
    seq<Byte>(288, i => if i < 144 then 8 else if i < 256 then 9 else if i < 280 then 7 else 8)
  }

  function FixedDistances(): (sizes: seq<Byte>)
    ensures |sizes| == 30
  {
    seq<Byte>(30, _ => 5)
  }

  // ---- Dynamic codes ----

  /** Where the size of code-length symbol i is stored. */
  const SIZE_POSITION: seq<nat> := [3, 17, 15, 13, 11, 9, 7, 5, 4, 6, 8, 10, 12, 14, 16, 18, 0, 1, 2]

  function SizeSymbol(j: nat): (i: nat)
    requires j < 19
    ensures i < 19
  {
    SIZE_SEQUENCE[j]
  }

  function SizePosition(i: nat): (j: nat)
    requires i < 19
    ensures j < 19
  {
    SIZE_POSITION[i]
  }

  /** The order of section 3.2.7 of RFC 1951: the repeat codes, 0, and then sizes alternately from 8 up and from 7 down. */
  lemma SizeOrder(j: nat)
    requires j < 19
    ensures SizeSymbol(j) ==
      if j < 3 then 16 + j else if j == 3 then 0 else if j % 2 == 0 then 8 + (j - 4) / 2 else 8 - (j - 3) / 2
  {
  }

  /** Storage order and storage position are inverse to each other. */
  lemma SizePositions(j: nat)
    requires j < 19
    ensures SizePosition(SizeSymbol(j)) == j && SizeSymbol(SizePosition(j)) == j
  {
  }

  /** The sizes of the code-length code: `count` of them are stored, the others are zero. */
  function CodeLengthSizes(s: seq<Bit>, pos: nat, count: nat): (sizes: seq<Byte>)
    ensures |sizes| == 19
  {
    Pow2Table();
    seq<Byte>(19, i requires 0 <= i < 19 =>
      if SizePosition(i) < count then LsbValue(s, pos + 3 * SizePosition(i), 3) else 0)
  }

  /** A run of code sizes: its size, its length and the number of extra bits it took. */
  datatype Run = Run(size: Byte, count: nat, extra: nat)

  /** What a code-length symbol stands for after the sizes `done`. */
  function RunOf(symbol: nat, done: seq<Byte>, s: seq<Bit>, pos: nat): (r: Option<Run>)
    requires symbol <= 18
    ensures r.Some? ==> r.value.count >= 1
  {
    if symbol < 16 then Some(Run(symbol, 1, 0))
    else if symbol == 16 then
      if |done| == 0 then None else Some(Run(done[|done| - 1], LsbValue(s, pos, 2) + 3, 2))
    else if symbol == 17 then Some(Run(0, LsbValue(s, pos, 3) + 3, 3))
    else Some(Run(0, LsbValue(s, pos, 7) + 11, 7))
  }

  function Sizes(size: Byte, count: nat): (r: seq<Byte>)
    ensures |r| == count
  {
    seq(count, _ => size)
  }

  /** Run-length coded sizes up to `total` of them, and the position after them. */
  ghost function CodeSizes(lengths: seq<nat>, s: seq<Bit>, pos: nat, total: nat, done: seq<Byte>)
    : (r: Option<(seq<Byte>, nat)>)
    requires |lengths| == 19 && |done| <= total
    ensures r.Some? ==> |r.value.0| == total && r.value.1 >= pos
    decreases total - |done|
  {
    if |done| == total then Some((done, pos))
    else
      match Decode(lengths, s, pos)
      case None => None
      case Some(symbol) =>
        var next := pos + lengths[symbol];
        match RunOf(symbol, done, s, next)
        case None => None
        case Some(run) =>
          if |done| + run.count > total then None
          else CodeSizes(lengths, s, next + run.extra, total, done + Sizes(run.size, run.count))
  }

  /** The codes of a dynamic block and the position after their description. */
  ghost function DynamicCodes(s: seq<Bit>, pos: nat): (r: Option<(Codes, nat)>)
    ensures r.Some? ==> r.value.0.Valid() && r.value.1 >= pos
  {
    var literals, distances, count := LsbValue(s, pos, 5) + 257, LsbValue(s, pos + 5, 5) + 1, LsbValue(s, pos + 10, 4) + 4;
    if literals > 286 || distances > 30 then None
    else
      var lengths := CodeLengthSizes(s, pos + 14, count);
      if !Acceptable(lengths, LARGEST) then None
      else
        match CodeSizes(lengths, s, pos + 14 + 3 * count, literals + distances, [])
        case None => None
        case Some((sizes, end)) =>
          var codes := Codes(sizes[..literals], sizes[literals..]);
          if sizes[END_OF_BLOCK] == 0 || !Acceptable(codes.literals, LARGEST) || !Acceptable(codes.distances, LARGEST) then None
          else Some((codes, end))
  }

  // ---- Streams ----

  /** The bytes of a stored block that starts at a byte, once its length and the complement are read. */
  function StoredBytes(data: seq<Byte>, start: nat, size: nat, complement: nat, out: seq<Byte>, capacity: nat)
    : (r: Option<(seq<Byte>, nat)>)
    ensures r.Some? ==> r.value.1 >= 8 * start && |r.value.0| >= |out|
    ensures r.Some? && |out| <= capacity ==> |r.value.0| <= capacity
  {
    if size + complement != 0xffff then None
    else if size == 0 then Some((out, 8 * start + 32))
    else if start + 4 + size > |data| || |out| + size > capacity then None
    else Some((out + data[start + 4..start + 4 + size], 8 * (start + 4 + size)))
  }

  /** A stored block: the length and its complement follow at the next byte boundary. */
  function StoredBlock(data: seq<Byte>, pos: nat, out: seq<Byte>, capacity: nat): (r: Option<(seq<Byte>, nat)>)
    ensures r.Some? ==> r.value.1 >= pos && |r.value.0| >= |out|
    ensures r.Some? && |out| <= capacity ==> |r.value.0| <= capacity
  {
    var s, start := BitsOf(LsbFirst, data), (pos + 7) / 8;
    StoredBytes(data, start, LsbValue(s, 8 * start, 16), LsbValue(s, 8 * start + 16, 16), out, capacity)
  }

  ghost function BlockAt(data: seq<Byte>, kind: nat, pos: nat, out: seq<Byte>, capacity: nat): (r: Option<(seq<Byte>, nat)>)
    ensures r.Some? ==> r.value.1 >= pos && |r.value.0| >= |out|
    ensures r.Some? && |out| <= capacity ==> |r.value.0| <= capacity
  {
    var s := BitsOf(LsbFirst, data);
    if kind == 0 then StoredBlock(data, pos, out, capacity)
    else if kind == 1 then CompressedBlock(Codes(FixedLiterals(), FixedDistances()), s, pos, out, capacity)
    else if kind == 2 then
      match DynamicCodes(s, pos)
      case None => None
      case Some((codes, next)) => CompressedBlock(codes, s, next, out, capacity)
    else None
  }

  /**
   * The output after all blocks from pos on, and the position after them. Blocks end with the last one or,
   * as in the decompressor, when no whole input byte is left.
   */
  ghost function Blocks(data: seq<Byte>, pos: nat, out: seq<Byte>, capacity: nat): (r: Option<(seq<Byte>, nat)>)
    ensures r.Some? && |out| <= capacity ==> |r.value.0| <= capacity
    decreases 8 * |data| - pos
  {
    if !MoreInput(|data|, pos) then Some((out, pos))
    else
      var header := LsbValue(BitsOf(LsbFirst, data), pos, 3);
      match BlockAt(data, header / 2, pos + 3, out, capacity)
      case None => None
      case Some((out', next)) => if header % 2 == 1 then Some((out', next)) else Blocks(data, next, out', capacity)
  }

  /** One block of a stream. */
  lemma BlocksCases(data: seq<Byte>, pos: nat, out: seq<Byte>, capacity: nat)
    ensures MoreInput(|data|, pos) ==> pos < 8 * |data|
    ensures var r := Blocks(data, pos, out, capacity);
      if !MoreInput(|data|, pos) then r == Some((out, pos))
      else
        var header := LsbValue(BitsOf(LsbFirst, data), pos, 3);
        var block := BlockAt(data, header / 2, pos + 3, out, capacity);
        if block.None? then r == None
        else if header % 2 == 1 then r == block
        else r == Blocks(data, block.value.1, block.value.0, capacity)
  {
    hide BlockAt, LsbValue, BitsOf;
  }

  /** The block type that RFC 1951 reserves, 11, is refused wherever it occurs. */
  lemma ReservedRefused(data: seq<Byte>, pos: nat, out: seq<Byte>, capacity: nat)
    requires MoreInput(|data|, pos) && LsbValue(BitsOf(LsbFirst, data), pos + 1, 2) == 3
    ensures Blocks(data, pos, out, capacity) == None
  {
    hide BlockAt, LsbValue, BitsOf;
    var s := BitsOf(LsbFirst, data);
    LsbSplit(s, pos, 1, 2);
    OneBit(s, pos);
    NoSuchBlock(data, pos + 3, out, capacity);
    BlocksCases(data, pos, out, capacity);
  }

  lemma OneBit(s: seq<Bit>, pos: nat)
    ensures LsbValue(s, pos, 1) < 2 && forall x: nat :: Shl(x, 1) == 2 * x
  {
  }

  lemma NoSuchBlock(data: seq<Byte>, pos: nat, out: seq<Byte>, capacity: nat)
    ensures BlockAt(data, 3, pos, out, capacity) == None
  {
  }

  /** Literal symbols 286 and 287 have fixed codes but stand for nothing. */
  lemma UnusedSymbolRefused(c: Codes, s: seq<Bit>, pos: nat, out: seq<Byte>, capacity: nat)
    requires |c.literals| <= 288 && |c.distances| <= 30
    requires Decode(c.literals, s, pos) == Some(286) || Decode(c.literals, s, pos) == Some(287)
    ensures CompressedBlock(c, s, pos, out, capacity) == None
  {
    hide Decode;
  }

  /** What the data decompresses to in a buffer of the given capacity. */
  ghost function Inflated(data: seq<Byte>, capacity: nat): (r: Option<seq<Byte>>)
    ensures r.Some? ==> |r.value| <= capacity
  {
    match Blocks(data, 0, [], capacity)
    case None => None
    case Some((out, _)) => Some(out)
  }
}
