/**
 * An encoder for DEFLATE streams. All choices of the format - blocks and their types, tokens, codes and the
 * run-length coding of code sizes - are parameters.
 */
module DeflateEncoder {
  import opened Options
  import opened Words
  import opened Bits
  import opened HuffmanCodes
  import opened Lz77
  import opened DeflateFormat
  import opened DeflateTokens
  import opened DeflateTrees

  // ---- Code sizes in runs ----

  /** One code-length symbol: a size, a repetition of the last size, or a run of zeros. */
  datatype SizeOp = One(size: Byte) | Again(count: nat) | Zeros(count: nat) | ManyZeros(count: nat) {

    predicate Valid(done: seq<Byte>) {
      match this
      case One(size) => size < 16
      case Again(count) => 3 <= count <= 6 && |done| > 0
      case Zeros(count) => 3 <= count <= 10
      case ManyZeros(count) => 11 <= count <= 138
    }

    function Symbol(): (r: nat)
      requires One? ==> size < 16
      ensures r <= 18
    {
      match this
      case One(size) => size
      case Again(_) => 16
      case Zeros(_) => 17
      case ManyZeros(_) => 18
    }

    function Extra(): seq<Bit>
      requires !One? && count >= 3 && (ManyZeros? ==> count >= 11)
    {
      match this
      case Again(count) => LsbBits(count - 3, 2)
      case Zeros(count) => LsbBits(count - 3, 3)
      case ManyZeros(count) => LsbBits(count - 11, 7)
    }

    function Apply(done: seq<Byte>): (r: seq<Byte>)
      requires Valid(done)
      ensures |r| > |done|
    {
      match this
      case One(size) => done + Sizes(size, 1)
      case Again(count) => done + Sizes(done[|done| - 1], count)
      case Zeros(count) => done + Sizes(0, count)
      case ManyZeros(count) => done + Sizes(0, count)
    }
  }

  /** The operations lead from `done` to `sizes`, and each has a code. */
  ghost predicate Leads(ops: seq<SizeOp>, lengths: seq<nat>, done: seq<Byte>, sizes: seq<Byte>)
    decreases |ops|
  {
    if |ops| == 0 then done == sizes
    else
      && ops[0].Valid(done) && |lengths| == 19 && lengths[ops[0].Symbol()] > 0
      && Leads(ops[1..], lengths, ops[0].Apply(done), sizes)
  }

  ghost function OpBits(op: SizeOp, lengths: seq<nat>, done: seq<Byte>): seq<Bit>
    requires op.Valid(done) && |lengths| == 19
  {
    CodeBits(lengths, op.Symbol()) + if op.One? then [] else op.Extra()
  }

  ghost function OpsBits(ops: seq<SizeOp>, lengths: seq<nat>, done: seq<Byte>, sizes: seq<Byte>): seq<Bit>
    requires Leads(ops, lengths, done, sizes)
    decreases |ops|
  {
    if |ops| == 0 then []
    else OpBits(ops[0], lengths, done) + OpsBits(ops[1..], lengths, ops[0].Apply(done), sizes)
  }

  lemma ReadOp(s: seq<Bit>, pos: nat, op: SizeOp, lengths: seq<nat>, done: seq<Byte>)
    requires op.Valid(done) && |lengths| == 19 && Acceptable(lengths, LARGEST) && lengths[op.Symbol()] > 0
    requires Has(s, pos, OpBits(op, lengths, done))
    ensures Decode(lengths, s, pos) == Some(op.Symbol())
    ensures var run := RunOf(op.Symbol(), done, s, pos + lengths[op.Symbol()]);
      && run.Some? && pos + lengths[op.Symbol()] + run.value.extra == pos + |OpBits(op, lengths, done)|
      && op.Apply(done) == done + Sizes(run.value.size, run.value.count)
  {
    hide Has, Decode, LsbBits, LsbValue, Acceptable, Sizes, Pow2;
    HasConcat(s, pos, CodeBits(lengths, op.Symbol()), if op.One? then [] else op.Extra());
    DecodeCode(lengths, LARGEST, s, pos, op.Symbol());
    Pow2Table();
    var p := pos + lengths[op.Symbol()];
    match op
    case One(_) =>
    case Again(count) => ReadLsbExact(s, p, count - 3, 2);
    case Zeros(count) => ReadLsbExact(s, p, count - 3, 3);
    case ManyZeros(count) => ReadLsbExact(s, p, count - 11, 7);
  }

  lemma {:induction false} LeadsGrows(ops: seq<SizeOp>, lengths: seq<nat>, done: seq<Byte>, sizes: seq<Byte>)
    requires Leads(ops, lengths, done, sizes)
    ensures |done| + |ops| <= |sizes|
    decreases |ops|
  {
    if |ops| > 0 { LeadsGrows(ops[1..], lengths, ops[0].Apply(done), sizes); }
  }

  /** Run-length coded sizes are read back. */
  lemma {:induction false} OpsRoundTrip(s: seq<Bit>, pos: nat, ops: seq<SizeOp>, lengths: seq<nat>, done: seq<Byte>, sizes: seq<Byte>)
    requires Leads(ops, lengths, done, sizes) && |lengths| == 19 && Acceptable(lengths, LARGEST) && |done| <= |sizes|
    requires Has(s, pos, OpsBits(ops, lengths, done, sizes))
    ensures CodeSizes(lengths, s, pos, |sizes|, done) == Some((sizes, pos + |OpsBits(ops, lengths, done, sizes)|))
    decreases |ops|
  {
    hide Has, Decode, OpBits, RunOf, Sizes, Acceptable, CodeSizes, SizeOp.Apply;
    LeadsGrows(ops, lengths, done, sizes);
    if |ops| > 0 {
      var next := ops[0].Apply(done);
      LeadsGrows(ops[1..], lengths, next, sizes);
      HasConcat(s, pos, OpBits(ops[0], lengths, done), OpsBits(ops[1..], lengths, next, sizes));
      ReadOp(s, pos, ops[0], lengths, done);
      SizesCases(lengths, s, pos, |sizes|, done);
      OpsRoundTrip(s, pos + |OpBits(ops[0], lengths, done)|, ops[1..], lengths, next, sizes);
    } else {
      AllSizes(lengths, s, pos, done);
    }
  }

  // ---- Sizes of the code-length code ----

  function LengthSizesBits(lengths: seq<Byte>, j: nat, count: nat): (b: seq<Bit>)
    requires |lengths| == 19 && j <= count <= 19
    ensures |b| == 3 * (count - j)
    decreases count - j
  {
    if j == count then [] else LsbBits(lengths[SizeSymbol(j)], 3) + LengthSizesBits(lengths, j + 1, count)
  }

  lemma {:induction false} ReadLengthSize(s: seq<Bit>, pos: nat, lengths: seq<Byte>, j: nat, count: nat, k: nat)
    requires |lengths| == 19 && j <= k < count <= 19 && (forall i :: 0 <= i < 19 ==> lengths[i] < 8)
    requires Has(s, pos, LengthSizesBits(lengths, j, count))
    ensures LsbValue(s, pos + 3 * (k - j), 3) == lengths[SizeSymbol(k)]
    decreases k - j
  {
    hide Has, LsbBits, LsbValue, Pow2, SizeSymbol;
    HasConcat(s, pos, LsbBits(lengths[SizeSymbol(j)], 3), LengthSizesBits(lengths, j + 1, count));
    if j == k {
      Pow2Table();
      ReadLsbExact(s, pos, lengths[SizeSymbol(j)], 3);
    } else {
      ReadLengthSize(s, pos + 3, lengths, j + 1, count, k);
    }
  }

  /** Sizes past the stored ones are zero. */
  ghost predicate Stored(lengths: seq<Byte>, count: nat) {
    |lengths| == 19 && 4 <= count <= 19 && forall i :: 0 <= i < 19 ==> lengths[i] < 8 && (SizePosition(i) >= count ==> lengths[i] == 0)
  }

  lemma LengthSizesRoundTrip(s: seq<Bit>, pos: nat, lengths: seq<Byte>, count: nat)
    requires Stored(lengths, count) && Has(s, pos, LengthSizesBits(lengths, 0, count))
    ensures CodeLengthSizes(s, pos, count) == lengths
  {
    hide Has, LsbValue, LengthSizesBits, SizeSymbol, SizePosition;
    forall i | 0 <= i < 19 ensures CodeLengthSizes(s, pos, count)[i] == lengths[i] {
      if SizePosition(i) < count {
        SizePositions(i);
        ReadLengthSize(s, pos, lengths, 0, count, SizePosition(i));
      }
    }
  }

  // ---- Dynamic codes ----

  /** A description of dynamic codes: their sizes, the sizes of the code-length code, and how the sizes are written. */
  datatype Description = Description(literals: seq<Byte>, distances: seq<Byte>, lengths: seq<Byte>, count: nat, ops: seq<SizeOp>) {

    /** It can be written down. */
    ghost predicate Valid() {
      && 257 <= |literals| <= 288 && 1 <= |distances| <= 32
      && Stored(lengths, count) && Leads(ops, lengths, [], literals + distances)
    }

    predicate SomeDistance() {
      exists i :: 0 <= i < |distances| && distances[i] != 0
    }

    /** What section 3.2.7 of RFC 1951 allows: up to 32 distance codes, or none in use when there are only literals. */
    ghost predicate Legal() {
      && 257 <= |literals| <= 286 && literals[256] > 0 && Acceptable(literals, 15) && Acceptable(lengths, 15)
      && (Acceptable(distances, 15) || !SomeDistance())
    }

    /** What the decoder accepts. */
    ghost predicate Accepted() {
      && 257 <= |literals| <= 286 && literals[256] > 0 && Acceptable(literals, 15) && Acceptable(lengths, 15)
      && |distances| <= 30 && Acceptable(distances, 15)
    }

    ghost function Bits(): seq<Bit>
      requires Valid()
    {
      LsbBits(|literals| - 257, 5)
      + (LsbBits(|distances| - 1, 5)
         + (LsbBits(count - 4, 4)
            + (LengthSizesBits(lengths, 0, count) + OpsBits(ops, lengths, [], literals + distances))))
    }
  }

  /** Whatever is described, it is read back exactly when it is accepted, and refused otherwise. */
  lemma DescriptionRoundTrip(s: seq<Bit>, pos: nat, d: Description)
    requires d.Valid() && Has(s, pos, d.Bits())
    ensures DynamicCodes(s, pos) ==
      if d.Accepted() then Some((Codes(d.literals, d.distances), pos + |d.Bits()|)) else None
  {
    hide Has, LsbBits, LsbValue, Acceptable, CodeSizes, CodeLengthSizes, OpsBits, LengthSizesBits, Pow2, Stored, Leads;
    var sizes := d.literals + d.distances;
    var ops := OpsBits(d.ops, d.lengths, [], sizes);
    CountRange(d.lengths, d.count);
    var rest := LengthSizesBits(d.lengths, 0, d.count) + ops;
    HasConcat(s, pos, LsbBits(|d.literals| - 257, 5), LsbBits(|d.distances| - 1, 5) + (LsbBits(d.count - 4, 4) + rest));
    HasConcat(s, pos + 5, LsbBits(|d.distances| - 1, 5), LsbBits(d.count - 4, 4) + rest);
    HasConcat(s, pos + 10, LsbBits(d.count - 4, 4), rest);
    HasConcat(s, pos + 14, LengthSizesBits(d.lengths, 0, d.count), ops);
    Pow2Table();
    ReadLsbExact(s, pos, |d.literals| - 257, 5);
    ReadLsbExact(s, pos + 5, |d.distances| - 1, 5);
    ReadLsbExact(s, pos + 10, d.count - 4, 4);
    LengthSizesRoundTrip(s, pos + 14, d.lengths, d.count);
    if Acceptable(d.lengths, 15) {
      OpsRoundTrip(s, pos + 14 + 3 * d.count, d.ops, d.lengths, [], sizes);
    }
    assert sizes[..|d.literals|] == d.literals && sizes[|d.literals|..] == d.distances;
  }

  /** Of what the RFC allows the decoder refuses more than 30 distance codes and a block without any. */
  lemma LegalAccepted(d: Description)
    requires d.Legal()
    ensures d.Accepted() <==> |d.distances| <= 30 && d.SomeDistance()
  {
    hide Kraft;
  }

  lemma CountRange(lengths: seq<Byte>, count: nat)
    requires Stored(lengths, count)
    ensures |lengths| == 19 && 4 <= count <= 19
  {
  }

  // ---- Blocks ----

  /** A stored block has padding bits and the second copy of its length, which should be the complement of the first. */
  datatype Block = StoredData(bytes: seq<Byte>, filler: nat, copy: nat)
                 | FixedTokens(tokens: seq<Token>)
                 | DynamicTokens(description: Description, tokens: seq<Token>)

  ghost function FixedCodes(): (c: Codes)
    ensures c.Valid() && |c.literals| == 288 && |c.distances| == 30
  {
    FixedLiteralsAcceptable();
    FixedDistancesAcceptable();
    Codes(FixedLiterals(), FixedDistances())
  }

  ghost predicate ValidBlock(b: Block, size: nat) {
    match b
    case StoredData(bytes, _, copy) => |bytes| < 65536 && copy < 65536
    case FixedTokens(tokens) => AllEncodable(FixedCodes(), tokens) && Reachable(tokens, size)
    case DynamicTokens(d, tokens) =>
      d.Valid() && AllEncodable(Codes(d.literals, d.distances), tokens) && Reachable(tokens, size)
  }

  /** The output after a block. */
  ghost function ExpandBlock(b: Block, out: seq<Byte>): (r: seq<Byte>)
    requires ValidBlock(b, |out|)
    ensures |r| >= |out|
  {
    match b
    case StoredData(bytes, _, _) => out + bytes
    case FixedTokens(tokens) => Expand(tokens, out)
    case DynamicTokens(_, tokens) => Expand(tokens, out)
  }

  function Kind(b: Block): nat {
    match b
    case StoredData(_, _, _) => 0
    case FixedTokens(_) => 1
    case DynamicTokens(_, _) => 2
  }

  /** Any bits up to the next byte boundary. */
  function Padding(pos: nat, filler: nat): seq<Bit> {
    LsbBits(filler, 8 * ((pos + 7) / 8) - pos)
  }

  /** The bits of a block after its header, at the given position. */
  ghost function BodyBits(b: Block, size: nat, pos: nat): seq<Bit>
    requires ValidBlock(b, size)
  {
    match b
    case StoredData(bytes, filler, copy) =>
      Padding(pos, filler) + (LsbBits(|bytes|, 16) + (LsbBits(copy, 16) + BitsOf(LsbFirst, bytes)))
    case FixedTokens(tokens) => TokensBits(FixedCodes(), tokens)
    case DynamicTokens(d, tokens) => d.Bits() + TokensBits(Codes(d.literals, d.distances), tokens)
  }

  /** Bytes at a byte boundary of the bits are bytes of the data. */
  lemma {:induction false} BytesAt(data: seq<Byte>, j: nat, bytes: seq<Byte>)
    requires Has(BitsOf(LsbFirst, data), 8 * j, BitsOf(LsbFirst, bytes)) && j + |bytes| <= |data|
    ensures data[j..j + |bytes|] == bytes
    decreases |bytes|
  {
    hide Has, BitsOf, LsbBits, LsbValue, Pow2;
    if |bytes| > 0 {
      var s := BitsOf(LsbFirst, data);
      assert bytes == [bytes[0]] + bytes[1..];
      BitsOfCons(LsbFirst, bytes[0], bytes[1..]);
      HasConcat(s, 8 * j, LsbBits(bytes[0], 8), BitsOf(LsbFirst, bytes[1..]));
      Pow2Table();
      ReadLsbExact(s, 8 * j, bytes[0], 8);
      ByteIsValue(LsbFirst, data, j);
      BytesAt(data, j + 1, bytes[1..]);
    }
  }

  lemma StoredRoundTrip(data: seq<Byte>, pos: nat, bytes: seq<Byte>, filler: nat, copy: nat, out: seq<Byte>, capacity: nat)
    requires |bytes| < 65536 && copy < 65536 && |out| <= capacity
    requires Has(BitsOf(LsbFirst, data), pos, BodyBits(StoredData(bytes, filler, copy), 0, pos))
    requires pos + |BodyBits(StoredData(bytes, filler, copy), 0, pos)| <= 8 * |data|
    ensures StoredBlock(data, pos, out, capacity) ==
      if |bytes| + copy == 0xffff && |out| + |bytes| <= capacity then
        Some((out + bytes, pos + |BodyBits(StoredData(bytes, filler, copy), 0, pos)|))
      else None
  {
    hide Has, LsbBits, LsbValue, BitsOf, Pow2;
    var s, start := BitsOf(LsbFirst, data), (pos + 7) / 8;
    var tail := LsbBits(copy, 16) + BitsOf(LsbFirst, bytes);
    HasConcat(s, pos, Padding(pos, filler), LsbBits(|bytes|, 16) + tail);
    HasConcat(s, 8 * start, LsbBits(|bytes|, 16), tail);
    HasConcat(s, 8 * start + 16, LsbBits(copy, 16), BitsOf(LsbFirst, bytes));
    Pow2Table();
    ReadLsbExact(s, 8 * start, |bytes|, 16);
    ReadLsbExact(s, 8 * start + 16, copy, 16);
    if |bytes| > 0 {
      BytesAt(data, start + 4, bytes);
    } else {
      assert out + bytes == out;
    }
  }

  /** Stored blocks need a proper copy of their length, dynamic blocks a description that the decoder accepts. */
  ghost predicate AcceptedBlock(b: Block) {
    && (b.StoredData? ==> |b.bytes| + b.copy == 0xffff)
    && (b.DynamicTokens? ==> b.description.Accepted())
  }

  /** Every block for which there is room is read back exactly when it is accepted. */
  lemma BodyRoundTrip(data: seq<Byte>, pos: nat, b: Block, out: seq<Byte>, capacity: nat)
    requires ValidBlock(b, |out|) && |out| <= capacity
    requires Has(BitsOf(LsbFirst, data), pos, BodyBits(b, |out|, pos)) && pos + |BodyBits(b, |out|, pos)| <= 8 * |data|
    ensures BlockAt(data, Kind(b), pos, out, capacity) ==
      if AcceptedBlock(b) && |ExpandBlock(b, out)| <= capacity then
        Some((ExpandBlock(b, out), pos + |BodyBits(b, |out|, pos)|))
      else None
  {
    hide Has, BitsOf, StoredBlock, CompressedBlock, DynamicCodes, TokensBits, AllEncodable, FixedLiterals, FixedDistances, Acceptable,
         Description.Valid, Description.Bits, Description.Accepted;
    var s := BitsOf(LsbFirst, data);
    match b
    case StoredData(bytes, filler, copy) => StoredRoundTrip(data, pos, bytes, filler, copy, out, capacity);
    case FixedTokens(tokens) => TokensRoundTrip(FixedCodes(), s, pos, tokens, out, capacity);
    case DynamicTokens(d, tokens) =>
      var c := Codes(d.literals, d.distances);
      HasConcat(s, pos, d.Bits(), TokensBits(c, tokens));
      DescriptionRoundTrip(s, pos, d);
      if d.Accepted() {
        AcceptedCodes(d);
        TokensRoundTrip(c, s, pos + |d.Bits()|, tokens, out, capacity);
      }
  }

  lemma AcceptedCodes(d: Description)
    requires d.Valid() && d.Accepted()
    ensures Codes(d.literals, d.distances).Valid()
  {
    hide Kraft, Leads, Stored;
  }

  // ---- Streams ----

  ghost predicate ValidBlocks(blocks: seq<Block>, out: seq<Byte>)
    decreases |blocks|
  {
    |blocks| > 0 ==> ValidBlock(blocks[0], |out|) && ValidBlocks(blocks[1..], ExpandBlock(blocks[0], out))
  }

  /** The output after all blocks. */
  ghost function ExpandBlocks(blocks: seq<Block>, out: seq<Byte>): (r: seq<Byte>)
    requires ValidBlocks(blocks, out)
    ensures |r| >= |out|
    decreases |blocks|
  {
    if |blocks| == 0 then out else ExpandBlocks(blocks[1..], ExpandBlock(blocks[0], out))
  }

  ghost predicate AllAccepted(blocks: seq<Block>) {
    forall i :: 0 <= i < |blocks| ==> AcceptedBlock(blocks[i])
  }

  lemma AcceptedRest(blocks: seq<Block>)
    requires |blocks| > 0
    ensures AllAccepted(blocks) <==> AcceptedBlock(blocks[0]) && AllAccepted(blocks[1..])
  {
    hide AcceptedBlock;
    if AcceptedBlock(blocks[0]) && AllAccepted(blocks[1..]) {
      forall i | 0 <= i < |blocks| ensures AcceptedBlock(blocks[i]) {
        if i > 0 { assert AcceptedBlock(blocks[1..][i - 1]); }
      }
    }
  }

  function HeaderBits(b: Block, last: bool): seq<Bit> {
    LsbBits(2 * Kind(b) + if last then 1 else 0, 3)
  }

  /** The bits of a stream whose blocks start at the given position; the last block is marked if the stream is finished. */
  ghost function StreamBits(blocks: seq<Block>, out: seq<Byte>, pos: nat, finished: bool): seq<Bit>
    requires ValidBlocks(blocks, out)
    decreases |blocks|
  {
    if |blocks| == 0 then []
    else
      var body := BodyBits(blocks[0], |out|, pos + 3);
      HeaderBits(blocks[0], |blocks| == 1 && finished)
      + (body + StreamBits(blocks[1..], ExpandBlock(blocks[0], out), pos + 3 + |body|, finished))
  }

  lemma {:induction false} TokensSize(c: Codes, tokens: seq<Token>)
    requires AllEncodable(c, tokens)
    ensures |TokensBits(c, tokens)| >= c.literals[END_OF_BLOCK]
    decreases |tokens|
  {
    hide TokenBits, DeflateTokens.Encodable;
    if |tokens| > 0 { TokensSize(c, tokens[1..]); }
  }

  /** Every block is longer than the bits of a byte that a reader may have buffered. */
  lemma BodySize(b: Block, size: nat, pos: nat)
    requires ValidBlock(b, size)
    ensures |BodyBits(b, size, pos)| >= 7
  {
    hide LsbBits, BitsOf, TokensBits, AllEncodable, Acceptable, Description.Valid;
    match b
    case StoredData(_, _, _) =>
    case FixedTokens(tokens) =>
      TokensSize(FixedCodes(), tokens);
      assert FixedCodes().literals[END_OF_BLOCK] == 7;
    case DynamicTokens(d, tokens) =>
      assert |d.Bits()| >= 14;
  }

  /**
   * Blocks are read back one after another; the decompressor does not stop before the last one, and stops there also
   * when the stream is not finished, provided that no whole byte follows.
   */
  lemma {:induction false} BlocksRoundTrip(data: seq<Byte>, pos: nat, blocks: seq<Block>, finished: bool, out: seq<Byte>,
                                           capacity: nat)
    requires ValidBlocks(blocks, out) && |out| <= capacity
    requires Has(BitsOf(LsbFirst, data), pos, StreamBits(blocks, out, pos, finished))
    requires pos + |StreamBits(blocks, out, pos, finished)| <= 8 * |data|
    requires if finished then |blocks| > 0 else !MoreInput(|data|, pos + |StreamBits(blocks, out, pos, finished)|)
    ensures Blocks(data, pos, out, capacity) ==
      if AllAccepted(blocks) && |ExpandBlocks(blocks, out)| <= capacity then
        Some((ExpandBlocks(blocks, out), pos + |StreamBits(blocks, out, pos, finished)|))
      else None
    decreases |blocks|
  {
    hide Has, BitsOf, LsbBits, LsbValue, BodyBits, ExpandBlock, ValidBlock, Blocks, BlockAt, Pow2, AcceptedBlock, AllAccepted;
    BlocksCases(data, pos, out, capacity);
    NoneRefused(blocks);
    if |blocks| == 0 {
      return;
    }
    var s, b := BitsOf(LsbFirst, data), blocks[0];
    var last := |blocks| == 1 && finished;
    var body := BodyBits(b, |out|, pos + 3);
    var next := ExpandBlock(b, out);
    var rest := StreamBits(blocks[1..], next, pos + 3 + |body|, finished);
    HasConcat(s, pos, HeaderBits(b, last), body + rest);
    HasConcat(s, pos + 3, body, rest);
    BodySize(b, |out|, pos + 3);
    Pow2Table();
    ReadLsbExact(s, pos, 2 * Kind(b) + if last then 1 else 0, 3);
    BodyRoundTrip(data, pos + 3, b, out, capacity);
    AcceptedRest(blocks);
    NoneRefused(blocks[1..]);
    if !last && AcceptedBlock(b) && |next| <= capacity {
      BlocksRoundTrip(data, pos + 3 + |body|, blocks[1..], finished, next, capacity);
    }
  }

  lemma NoneRefused(blocks: seq<Block>)
    ensures |blocks| == 0 ==> AllAccepted(blocks)
  {
  }

  /**
   * DEFLATE round trip: the bytes of any stream of blocks inflate to what the blocks stand for exactly when the decoder
   * accepts each of them and there is room. It makes no difference whether the last block is marked as the last one.
   */
  lemma RoundTrip(blocks: seq<Block>, finished: bool, capacity: nat)
    requires (finished ==> |blocks| > 0) && ValidBlocks(blocks, [])
    ensures Inflated(Pack(LsbFirst, StreamBits(blocks, [], 0, finished)), capacity) ==
      if AllAccepted(blocks) && |ExpandBlocks(blocks, [])| <= capacity then Some(ExpandBlocks(blocks, [])) else None
  {
    hide Has, BitsOf, Pack, StreamBits, Blocks, ValidBlocks, ExpandBlocks, AllAccepted;
    var bits := StreamBits(blocks, [], 0, finished);
    PackedHas(LsbFirst, bits);
    BlocksRoundTrip(Pack(LsbFirst, bits), 0, blocks, finished, [], capacity);
  }

  // ---- Every byte string has a stream ----

  /** A single fixed block of literals: every byte string is the inflation of some data. */
  lemma EveryStringInflates(s: seq<Byte>, capacity: nat)
    requires |s| <= capacity
    ensures exists data :: Inflated(data, capacity) == Some(s)
  {
    hide AllEncodable, StreamBits, Pack, Inflated, LiteralTokens, Expand, Reachable, FixedCodes;
    var block := FixedTokens(LiteralTokens(s));
    LiteralsExpand(s, []);
    LiteralsEncodable(s);
    assert [] + s == s;
    assert ValidBlocks([block][1..], ExpandBlock(block, []));
    assert ExpandBlocks([block], []) == s;
    RoundTrip([block], true, capacity);
  }

  lemma LiteralsEncodable(s: seq<Byte>)
    ensures AllEncodable(FixedCodes(), LiteralTokens(s))
  {
    hide Kraft, Acceptable, Codes.Valid, DistanceIndex, LengthIndex;
    var c := FixedCodes();
    assert forall i :: 0 <= i < 288 ==> c.literals[i] > 0;
    forall i | 0 <= i < |LiteralTokens(s)| ensures DeflateTokens.Encodable(c, LiteralTokens(s)[i]) {
      assert LiteralTokens(s)[i] == Literal(s[i]);
    }
  }
}
