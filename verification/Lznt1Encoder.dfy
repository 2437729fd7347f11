/** An LZNT1 encoder and the proof that the decoder undoes it. */
module Lznt1Encoder {
  import opened Options
  import opened Words
  import opened Lz77
  import opened Lznt1Format

  // ---- Byte strings inside the data ----

  predicate HasBytes(data: seq<Byte>, pos: nat, bytes: seq<Byte>) {
    pos + |bytes| <= |data| && data[pos..pos + |bytes|] == bytes
  }

  lemma HasBytesConcat(data: seq<Byte>, pos: nat, a: seq<Byte>, b: seq<Byte>)
    requires HasBytes(data, pos, a + b)
    ensures HasBytes(data, pos, a) && HasBytes(data, pos + |a|, b)
  {
    var s := data[pos..pos + |a + b|];
    assert data[pos..pos + |a|] == s[..|a|] && data[pos + |a|..pos + |a| + |b|] == s[|a|..];
  }

  lemma HasByteAt(data: seq<Byte>, pos: nat, bytes: seq<Byte>, i: nat)
    requires HasBytes(data, pos, bytes) && i < |bytes|
    ensures data[pos + i] == bytes[i]
  {
    assert data[pos..pos + |bytes|][i] == data[pos + i];
  }

  // ---- Tokens ----

  function SizeOf(t: Token): nat {
    if t.Literal? then 1 else t.length
  }

  function TotalSize(tokens: seq<Token>): nat {
    if |tokens| == 0 then 0 else SizeOf(tokens[0]) + TotalSize(tokens[1..])
  }

  /** A match fits the split in force when p bytes of the block are written. */
  predicate TokenFits(t: Token, p: nat)
    requires p <= LARGEST_OFFSET
  {
    t.Literal? ||
    (3 <= t.length < Pow2(ShiftFor(p)) + 3 && 1 <= t.distance <= Reach(ShiftFor(p)))
  }

  predicate TokensFit(tokens: seq<Token>, p: nat) {
    |tokens| == 0 ||
    (p <= LARGEST_OFFSET && TokenFits(tokens[0], p) && TokensFit(tokens[1..], p + SizeOf(tokens[0])))
  }

  /** The two fields of a tuple side by side. */
  function TupleOf(t: Token, p: nat): (r: nat)
    requires p <= LARGEST_OFFSET && t.Copy? && TokenFits(t, p)
    ensures r < 0x1_0000
  {
    var shift := ShiftFor(p);
    TupleBound(t.distance - 1, t.length - 3, shift);
    Shl(t.distance - 1, shift) + (t.length - 3)
  }

  lemma TupleBound(high: nat, low: nat, shift: nat)
    requires shift <= 12 && high < Reach(shift) && low < Pow2(shift)
    ensures Shl(high, shift) + low < 0x1_0000
  {
    ShlBound(high, 16 - shift, shift);
    Pow2Table();
  }

  function ItemBytes(t: Token, p: nat): (r: seq<Byte>)
    requires p <= LARGEST_OFFSET && TokenFits(t, p)
    ensures |r| == if t.Literal? then 1 else 2
  {
    match t
    case Literal(byte) => [byte]
    case Copy(_, _) => [TupleOf(t, p) % 256, TupleOf(t, p) / 256]
  }

  lemma ItemRoundTrip(data: seq<Byte>, pos: nat, t: Token, out: seq<Byte>, start: nat, capacity: nat)
    requires start <= |out| && |out| - start <= HALF_OFFSET && TokenFits(t, |out| - start)
    requires HasBytes(data, pos, ItemBytes(t, |out| - start)) && |out| <= capacity
    ensures Item(data, pos, t.Copy?, out, start, capacity) ==
      if (t.Copy? ==> t.distance <= |out|) && |out| + SizeOf(t) <= capacity then
        Some((AfterToken(t, out), pos + |ItemBytes(t, |out| - start)|))
      else None
  {
    hide Shl, Shr, Low, ShiftFor, CopyMatch, Reach, Pow2;
    var p := |out| - start;
    var bytes := ItemBytes(t, p);
    HasByteAt(data, pos, bytes, 0);
    if t.Copy? {
      HasByteAt(data, pos, bytes, 1);
      assert Word16(data[pos], data[pos + 1]) == TupleOf(t, p);
      Split(t.distance - 1, t.length - 3, ShiftFor(p));
    }
  }

  // ---- Groups of eight ----

  function ItemsBytes(tokens: seq<Token>, p: nat): (r: seq<Byte>)
    requires TokensFit(tokens, p)
    ensures |r| >= |tokens|
    decreases |tokens|
  {
    if |tokens| == 0 then [] else ItemBytes(tokens[0], p) + ItemsBytes(tokens[1..], p + SizeOf(tokens[0]))
  }

  /** One bit per token, the first one lowest. */
  function FlagsOf(tokens: seq<Token>): (r: nat)
    ensures r < Pow2(|tokens|)
  {
    if |tokens| == 0 then 0 else (if tokens[0].Copy? then 1 else 0) + 2 * FlagsOf(tokens[1..])
  }

  lemma {:induction false} GroupRoundTrip(data: seq<Byte>, pos: nat, f: Frame, tokens: seq<Token>, n: nat, out: seq<Byte>,
                                          capacity: nat)
    requires f.Valid() && f.begin <= pos <= f.end && f.start <= |out| && 0 < |tokens| <= n
    requires Bounded(|out| - f.start, pos - f.begin)
    requires TokensFit(tokens, |out| - f.start) && |out| <= capacity
    requires HasBytes(data, pos, ItemsBytes(tokens, |out| - f.start))
    requires pos + |ItemsBytes(tokens, |out| - f.start)| <= f.end
    requires pos + |ItemsBytes(tokens, |out| - f.start)| < f.end ==> |tokens| == n
    ensures Group(data, pos, f, FlagsOf(tokens), n, out, capacity) ==
      if Reachable(tokens, |out|) && |Expand(tokens, out)| <= capacity then
        Some((Expand(tokens, out), pos + |ItemsBytes(tokens, |out| - f.start)|))
      else None
    decreases |tokens|
  {
    hide Item, Group, HasBytes, ItemBytes, ItemsBytes, FlagsOf, TokenFits, TokensFit, Pow2, Reachable, Expand, AfterToken;
    var p, t, rest := |out| - f.start, tokens[0], tokens[1..];
    var bytes := ItemBytesOf(tokens, p);
    FlagsStep(tokens);
    TokenStep(tokens, out);
    HasBytesConcat(data, pos, bytes, ItemsBytes(rest, p + SizeOf(t)));
    ItemRead(data, pos, tokens, out, f.start, capacity);
    GroupNext(data, pos, f, FlagsOf(tokens), n, out, capacity);
    if (t.Copy? ==> 1 <= t.distance <= |out|) && |out| + SizeOf(t) <= capacity {
      var longer := AfterToken(t, out);
      var next := pos + |bytes|;
      if |rest| > 0 {
        GroupRoundTrip(data, next, f, rest, n - 1, longer, capacity);
      } else {
        NothingExpanded(rest, longer);
        NoBytes(rest, p + SizeOf(t));
        if next < f.end {
          EmptyGroup(data, next, f, FlagsOf(rest), longer, capacity);
        }
      }
    }
  }

  /** The bytes of the first token. */
  function ItemBytesOf(tokens: seq<Token>, p: nat): (r: seq<Byte>)
    requires |tokens| > 0 && TokensFit(tokens, p)
    ensures |r| > 0 && p <= LARGEST_OFFSET
    ensures TokensFit(tokens[1..], p + SizeOf(tokens[0]))
    ensures ItemsBytes(tokens, p) == r + ItemsBytes(tokens[1..], p + SizeOf(tokens[0]))
  {
    ItemBytes(tokens[0], p)
  }

  lemma ItemRead(data: seq<Byte>, pos: nat, tokens: seq<Token>, out: seq<Byte>, start: nat, capacity: nat)
    requires start <= |out| <= capacity && |out| - start <= HALF_OFFSET
    requires |tokens| > 0 && TokensFit(tokens, |out| - start) && HasBytes(data, pos, ItemBytesOf(tokens, |out| - start))
    ensures Item(data, pos, tokens[0].Copy?, out, start, capacity) ==
      if (tokens[0].Copy? ==> 1 <= tokens[0].distance <= |out|) && |out| + SizeOf(tokens[0]) <= capacity then
        Some((AfterToken(tokens[0], out), pos + |ItemBytesOf(tokens, |out| - start)|))
      else None
  {
    hide Item, ItemsBytes, HasBytes, CopyMatch, Expand;
    ItemRoundTrip(data, pos, tokens[0], out, start, capacity);
  }

  lemma FlagsStep(tokens: seq<Token>)
    requires |tokens| > 0
    ensures FlagsOf(tokens) % 2 == (if tokens[0].Copy? then 1 else 0) && FlagsOf(tokens) / 2 == FlagsOf(tokens[1..])
  {
  }

  lemma NoBytes(tokens: seq<Token>, p: nat)
    requires |tokens| == 0
    ensures TokensFit(tokens, p) && ItemsBytes(tokens, p) == []
  {
  }

  /** The output after one token. */
  function AfterToken(t: Token, out: seq<Byte>): (r: seq<Byte>)
    requires t.Copy? ==> 1 <= t.distance <= |out|
    ensures |r| == |out| + SizeOf(t)
  {
    if t.Literal? then out + [t.byte] else CopyMatch(out, t.distance, t.length)
  }

  lemma TokenStep(tokens: seq<Token>, out: seq<Byte>)
    requires |tokens| > 0
    ensures Reachable(tokens, |out|) <==>
      (tokens[0].Copy? ==> 1 <= tokens[0].distance <= |out|) && Reachable(tokens[1..], |AfterToken(tokens[0], out)|)
    ensures Reachable(tokens, |out|) ==>
      Expand(tokens, out) == Expand(tokens[1..], AfterToken(tokens[0], out)) && |Expand(tokens, out)| >= |out| + SizeOf(tokens[0])
  {
  }

  // ---- Compressed blocks ----

  lemma {:induction false} SplitTokens(tokens: seq<Token>, n: nat, out: seq<Byte>)
    requires n <= |tokens| && Reachable(tokens, |out|)
    ensures Reachable(tokens[..n], |out|)
    ensures |Expand(tokens[..n], out)| == |out| + TotalSize(tokens[..n])
    ensures Reachable(tokens[n..], |Expand(tokens[..n], out)|)
    ensures Expand(tokens, out) == Expand(tokens[n..], Expand(tokens[..n], out))
    decreases n
  {
    hide CopyMatch;
    if n == 0 {
      assert tokens[..0] == [] && tokens[0..] == tokens;
    } else {
      TokenStep(tokens, out);
      SplitTokens(tokens[1..], n - 1, AfterToken(tokens[0], out));
      assert tokens[..n][1..] == tokens[1..][..n - 1] && tokens[n..] == tokens[1..][n - 1..];
      assert tokens[..n][0] == tokens[0];
    }
  }

  lemma {:induction false} SplitReachable(tokens: seq<Token>, n: nat, size: nat)
    requires n <= |tokens|
    ensures Reachable(tokens, size) <==> Reachable(tokens[..n], size) && Reachable(tokens[n..], size + TotalSize(tokens[..n]))
    decreases n
  {
    if n == 0 {
      assert tokens[..0] == [] && tokens[0..] == tokens;
    } else {
      SplitReachable(tokens[1..], n - 1, size + SizeOf(tokens[0]));
      assert tokens[..n][1..] == tokens[1..][..n - 1] && tokens[n..] == tokens[1..][n - 1..];
      assert tokens[..n][0] == tokens[0];
    }
  }

  function GroupSize(tokens: seq<Token>): nat {
    if |tokens| > 8 then 8 else |tokens|
  }

  lemma SplitFit(tokens: seq<Token>, n: nat, p: nat)
    requires n <= |tokens| && TokensFit(tokens, p)
    ensures TokensFit(tokens[..n], p) && TokensFit(tokens[n..], p + TotalSize(tokens[..n]))
    decreases n
  {
    hide TokenFits;
    if n == 0 {
      assert tokens[..0] == [] && tokens[0..] == tokens;
    } else {
      SplitFit(tokens[1..], n - 1, p + SizeOf(tokens[0]));
      assert tokens[..n][1..] == tokens[1..][..n - 1] && tokens[n..] == tokens[1..][n - 1..];
    }
  }

  /** Groups of up to eight tokens behind their flag bytes. */
  function BlockBytes(tokens: seq<Token>, p: nat): (r: seq<Byte>)
    requires TokensFit(tokens, p)
    ensures |tokens| > 0 ==> |r| > 0
    decreases |tokens|
  {
    if |tokens| == 0 then []
    else
      var n := GroupSize(tokens);
      SplitFit(tokens, n, p);
      FlagsFit(tokens[..n]);
      [FlagsOf(tokens[..n])] + ItemsBytes(tokens[..n], p) + BlockBytes(tokens[n..], p + TotalSize(tokens[..n]))
  }

  lemma FlagsFit(tokens: seq<Token>)
    requires |tokens| <= 8
    ensures FlagsOf(tokens) < 256
  {
    Pow2Monotone(|tokens|, 8);
    Pow2Table();
  }

  /** The flag byte, the items of the first group and the other groups in the data. */
  lemma GroupBytes(data: seq<Byte>, pos: nat, tokens: seq<Token>, p: nat)
    requires |tokens| > 0 && TokensFit(tokens, p) && HasBytes(data, pos, BlockBytes(tokens, p))
    ensures var first, rest := tokens[..GroupSize(tokens)], tokens[GroupSize(tokens)..];
      && TokensFit(first, p) && TokensFit(rest, p + TotalSize(first))
      && pos < |data| && data[pos] == FlagsOf(first)
      && HasBytes(data, pos + 1, ItemsBytes(first, p))
      && HasBytes(data, pos + 1 + |ItemsBytes(first, p)|, BlockBytes(rest, p + TotalSize(first)))
      && |BlockBytes(tokens, p)| == 1 + |ItemsBytes(first, p)| + |BlockBytes(rest, p + TotalSize(first))|
      && (|BlockBytes(rest, p + TotalSize(first))| > 0 ==> |first| == 8)
  {
    hide HasBytes, ItemsBytes, FlagsOf, TokensFit, Pow2;
    var n := GroupSize(tokens);
    var first, rest := tokens[..n], tokens[n..];
    SplitFit(tokens, n, p);
    FlagsFit(first);
    var flags: seq<Byte> := [FlagsOf(first)];
    var items, others := ItemsBytes(first, p), BlockBytes(rest, p + TotalSize(first));
    assert BlockBytes(tokens, p) == flags + items + others;
    HasBytesConcat(data, pos, flags + items, others);
    HasBytesConcat(data, pos, flags, items);
    FlagByte(data, pos, flags);
  }

  /** Tokens in two parts: what they reach and what they stand for. */
  lemma SplitMeaning(tokens: seq<Token>, n: nat, out: seq<Byte>)
    requires n <= |tokens|
    ensures Reachable(tokens, |out|) ==> Reachable(tokens[..n], |out|)
    ensures Reachable(tokens[..n], |out|) ==> |Expand(tokens[..n], out)| == |out| + TotalSize(tokens[..n])
    ensures Reachable(tokens[..n], |out|) ==>
      (Reachable(tokens, |out|) <==> Reachable(tokens[n..], |Expand(tokens[..n], out)|))
    ensures Reachable(tokens, |out|) ==> Expand(tokens, out) == Expand(tokens[n..], Expand(tokens[..n], out))
  {
    hide Reachable, Expand;
    SplitReachable(tokens, n, |out|);
    if Reachable(tokens[..n], |out|) {
      ExpandSize(tokens[..n], out);
    }
    if Reachable(tokens, |out|) {
      SplitTokens(tokens, n, out);
    }
  }

  /**
   * A block written from tokens is read back to what the tokens stand for exactly when every match stays within the output
   * and there is room; otherwise it is refused.
   */
  lemma {:induction false} BlockRoundTrip(data: seq<Byte>, pos: nat, f: Frame, tokens: seq<Token>, out: seq<Byte>, capacity: nat)
    requires f.Valid() && f.begin <= pos && f.start <= |out| && Bounded(|out| - f.start, pos - f.begin)
    requires TokensFit(tokens, |out| - f.start) && |out| <= capacity
    requires HasBytes(data, pos, BlockBytes(tokens, |out| - f.start))
    requires f.end == pos + |BlockBytes(tokens, |out| - f.start)|
    ensures CompressedBlock(data, pos, f, out, capacity) ==
      if Reachable(tokens, |out|) && |Expand(tokens, out)| <= capacity then Some(Expand(tokens, out)) else None
    decreases |tokens|
  {
    hide Group, CompressedBlock, HasBytes, Reachable, Expand, ItemsBytes, BlockBytes, FlagsOf, TokensFit, Pow2, TotalSize;
    var p := |out| - f.start;
    BlockNext(data, pos, f, out, capacity);
    if |tokens| == 0 {
      NothingExpanded(tokens, out);
      NoBlockBytes(tokens, p);
    } else {
      var n := GroupSize(tokens);
      var first, rest := tokens[..n], tokens[n..];
      GroupBytes(data, pos, tokens, p);
      SplitMeaning(tokens, n, out);
      GroupRoundTrip(data, pos + 1, f, first, 8, out, capacity);
      if Reachable(first, |out|) && |Expand(first, out)| <= capacity {
        BlockRoundTrip(data, pos + 1 + |ItemsBytes(first, p)|, f, rest, Expand(first, out), capacity);
      }
    }
  }

  lemma NoBlockBytes(tokens: seq<Token>, p: nat)
    requires |tokens| == 0
    ensures TokensFit(tokens, p) && BlockBytes(tokens, p) == []
  {
  }

  lemma {:induction false} ExpandSize(tokens: seq<Token>, out: seq<Byte>)
    requires Reachable(tokens, |out|)
    ensures |Expand(tokens, out)| == |out| + TotalSize(tokens)
    decreases |tokens|
  {
    if |tokens| > 0 {
      TokenStep(tokens, out);
      ExpandSize(tokens[1..], AfterToken(tokens[0], out));
    }
  }

  lemma NothingExpanded(tokens: seq<Token>, out: seq<Byte>)
    requires |tokens| == 0
    ensures Reachable(tokens, |out|) && Expand(tokens, out) == out
  {
  }

  lemma FlagByte(data: seq<Byte>, pos: nat, flags: seq<Byte>)
    requires |flags| == 1 && HasBytes(data, pos, flags)
    ensures pos < |data| && data[pos] == flags[0]
  {
    HasByteAt(data, pos, flags, 0);
  }

  // ---- All blocks ----

  datatype Chunk = Stored(bytes: seq<Byte>) | Packed(tokens: seq<Token>)

  /** What an encoder may put into one block behind `size` bytes of output. */
  predicate ChunkFits(c: Chunk, size: nat) {
    match c
    case Stored(bytes) => 1 <= |bytes| <= 0x1000
    case Packed(tokens) =>
      |tokens| > 0 && TokensFit(tokens, 0) && Reachable(tokens, size) && |BlockBytes(tokens, 0)| <= 0x1000
  }

  function ChunkOutput(c: Chunk, out: seq<Byte>): seq<Byte>
    requires ChunkFits(c, |out|)
  {
    match c
    case Stored(bytes) => out + bytes
    case Packed(tokens) => Expand(tokens, out)
  }

  /** Size and flags, with the signature bits of the format: 0xb000 for a compressed block, 0x3000 otherwise. */
  function HeaderOf(c: Chunk, size: nat): (r: nat)
    requires ChunkFits(c, size)
    ensures r < 0x1_0000 && r % 0x1000 + 1 == |Body(c, size)| && (r >= 0x8000 <==> c.Packed?) && r >= 0x3000
  {
    (if c.Packed? then 0xb000 else 0x3000) + |Body(c, size)| - 1
  }

  function Body(c: Chunk, size: nat): (r: seq<Byte>)
    requires ChunkFits(c, size)
    ensures 1 <= |r| <= 0x1000
  {
    match c
    case Stored(bytes) => bytes
    case Packed(tokens) => BlockBytes(tokens, 0)
  }

  function ChunkBytes(c: Chunk, size: nat): (r: seq<Byte>)
    requires ChunkFits(c, size)
    ensures |r| == 2 + |Body(c, size)|
  {
    var header: nat := HeaderOf(c, size);
    [header % 256, header / 256] + Body(c, size)
  }

  lemma {:induction false} ExpandGrows(tokens: seq<Token>, out: seq<Byte>, p: nat)
    requires |tokens| > 0 && Reachable(tokens, |out|) && TokensFit(tokens, p)
    ensures |Expand(tokens, out)| > |out|
  {
    hide CopyMatch;
    TokenStep(tokens, out);
  }

  /** A chunk is read unless the buffer is full already, and refused when there is some room but not enough. */
  lemma ChunkRoundTrip(data: seq<Byte>, pos: nat, c: Chunk, out: seq<Byte>, capacity: nat)
    requires ChunkFits(c, |out|) && HasBytes(data, pos, ChunkBytes(c, |out|)) && |out| <= capacity
    ensures |ChunkOutput(c, out)| > |out|
    ensures Blocks(data, pos, out, capacity) ==
      if |out| == capacity then Some(out)
      else if |ChunkOutput(c, out)| > capacity then None
      else Blocks(data, pos + |ChunkBytes(c, |out|)|, ChunkOutput(c, out), capacity)
  {
    hide Blocks, CompressedBlock, HasBytes, BlockBytes, TokensFit, Reachable, Expand, HeaderOf, Word16;
    var body := Body(c, |out|);
    ChunkHeader(data, pos, c, |out|);
    HasSlice(data, pos + 2, body);
    BlocksNext(data, pos, out, capacity);
    if c.Packed? {
      ExpandGrows(c.tokens, out, 0);
      BlockRoundTrip(data, pos + 2, Frame(pos + 2, pos + 2 + |body|, |out|), c.tokens, out, capacity);
    }
  }

  /** The header and the body of a chunk in the data. */
  lemma ChunkHeader(data: seq<Byte>, pos: nat, c: Chunk, size: nat)
    requires ChunkFits(c, size) && HasBytes(data, pos, ChunkBytes(c, size))
    ensures HasBytes(data, pos + 2, Body(c, size)) && pos + 2 <= |data|
    ensures Word16(data[pos], data[pos + 1]) == HeaderOf(c, size)
  {
    hide HasBytes, BlockBytes, TokensFit, Reachable, HeaderOf;
    var header: nat := HeaderOf(c, size);
    var bytes: seq<Byte> := [header % 256, header / 256];
    HasBytesConcat(data, pos, bytes, Body(c, size));
    HasSlice(data, pos, bytes);
    HasByteAt(data, pos, bytes, 0);
    HasByteAt(data, pos, bytes, 1);
  }

  lemma HasSlice(data: seq<Byte>, pos: nat, bytes: seq<Byte>)
    requires HasBytes(data, pos, bytes)
    ensures pos + |bytes| <= |data| && data[pos..pos + |bytes|] == bytes
  {
  }

  predicate ChunksFit(chunks: seq<Chunk>, out: seq<Byte>)
    decreases |chunks|
  {
    |chunks| == 0 || (ChunkFits(chunks[0], |out|) && ChunksFit(chunks[1..], ChunkOutput(chunks[0], out)))
  }

  /** What the chunks stand for. */
  function ChunksOutput(chunks: seq<Chunk>, out: seq<Byte>): (r: seq<Byte>)
    requires ChunksFit(chunks, out)
    decreases |chunks|
  {
    if |chunks| == 0 then out else ChunksOutput(chunks[1..], ChunkOutput(chunks[0], out))
  }

  function Encoded(chunks: seq<Chunk>, out: seq<Byte>): (r: seq<Byte>)
    requires ChunksFit(chunks, out)
    decreases |chunks|
  {
    if |chunks| == 0 then []
    else ChunkBytes(chunks[0], |out|) + Encoded(chunks[1..], ChunkOutput(chunks[0], out))
  }

  lemma {:induction false} OutputGrows(chunks: seq<Chunk>, out: seq<Byte>)
    requires ChunksFit(chunks, out)
    ensures |ChunksOutput(chunks, out)| >= |out|
    decreases |chunks|
  {
    hide ChunkFits;
    if |chunks| > 0 {
      assert |ChunkOutput(chunks[0], out)| >= |out|;
      OutputGrows(chunks[1..], ChunkOutput(chunks[0], out));
    }
  }

  /** The data ends here, or a zero header does. */
  predicate EndsAt(data: seq<Byte>, pos: nat) {
    pos == |data| || (pos + 2 <= |data| && data[pos] == 0 == data[pos + 1])
  }

  /** How many of the chunks fit into the buffer. */
  function Kept(chunks: seq<Chunk>, out: seq<Byte>, capacity: nat): (n: nat)
    requires ChunksFit(chunks, out) && |out| <= capacity
    ensures n <= |chunks|
    decreases |chunks|
  {
    if |chunks| == 0 || |ChunkOutput(chunks[0], out)| > capacity then 0
    else 1 + Kept(chunks[1..], ChunkOutput(chunks[0], out), capacity)
  }

  /** The chunks that fit: their output fits, and that of one more does not. */
  lemma {:induction false} KeptLongest(chunks: seq<Chunk>, out: seq<Byte>, capacity: nat, n: nat)
    requires ChunksFit(chunks, out) && |out| <= capacity && n <= |chunks|
    ensures ChunksFit(chunks[..n], out)
    ensures |ChunksOutput(chunks[..n], out)| <= capacity <==> n <= Kept(chunks, out, capacity)
    decreases |chunks|
  {
    hide ChunkFits, ChunkOutput;
    if n > 0 {
      var next := ChunkOutput(chunks[0], out);
      assert chunks[..n][0] == chunks[0] && chunks[..n][1..] == chunks[1..][..n - 1];
      if |next| <= capacity {
        KeptLongest(chunks[1..], next, capacity, n - 1);
      } else {
        PrefixFits(chunks[1..], n - 1, next);
        OutputGrows(chunks[1..][..n - 1], next);
      }
    }
  }

  lemma {:induction false} PrefixFits(chunks: seq<Chunk>, n: nat, out: seq<Byte>)
    requires ChunksFit(chunks, out) && n <= |chunks|
    ensures ChunksFit(chunks[..n], out)
    decreases |chunks|
  {
    hide ChunkFits, ChunkOutput;
    if n > 0 {
      assert chunks[..n][0] == chunks[0] && chunks[..n][1..] == chunks[1..][..n - 1];
      PrefixFits(chunks[1..], n - 1, ChunkOutput(chunks[0], out));
    }
  }

  /** What the decompressor makes of the chunks: it stops without an error when the buffer is full behind a chunk. */
  function Outcome(chunks: seq<Chunk>, out: seq<Byte>, capacity: nat): Option<seq<Byte>>
    requires ChunksFit(chunks, out) && |out| <= capacity
  {
    var n := Kept(chunks, out, capacity);
    PrefixFits(chunks, n, out);
    var kept := ChunksOutput(chunks[..n], out);
    if n == |chunks| || |kept| == capacity then Some(kept) else None
  }

  lemma OutcomeFirst(chunks: seq<Chunk>, out: seq<Byte>, capacity: nat)
    requires |chunks| > 0 && ChunksFit(chunks, out) && |out| <= capacity
    ensures Outcome(chunks, out, capacity) ==
      if |ChunkOutput(chunks[0], out)| > capacity then if |out| == capacity then Some(out) else None
      else Outcome(chunks[1..], ChunkOutput(chunks[0], out), capacity)
  {
    hide ChunkFits, ChunkOutput;
    var n := Kept(chunks, out, capacity);
    if n == 0 {
      assert chunks[..0] == [];
    } else {
      assert chunks[..n][0] == chunks[0] && chunks[..n][1..] == chunks[1..][..n - 1];
      PrefixFits(chunks, n, out);
    }
  }

  lemma {:induction false} BlocksRoundTrip(data: seq<Byte>, pos: nat, chunks: seq<Chunk>, out: seq<Byte>, capacity: nat)
    requires ChunksFit(chunks, out) && HasBytes(data, pos, Encoded(chunks, out)) && |out| <= capacity
    requires EndsAt(data, pos + |Encoded(chunks, out)|) || |ChunksOutput(chunks, out)| >= capacity
    ensures Blocks(data, pos, out, capacity) == Outcome(chunks, out, capacity)
    decreases |chunks|
  {
    hide Blocks, HasBytes, ChunkBytes, ChunkOutput, ChunkFits, CompressedBlock, Outcome;
    if |chunks| == 0 {
      BlocksNext(data, pos, out, capacity);
      NoChunks(chunks, out, capacity);
    } else {
      var next := ChunkOutput(chunks[0], out);
      OutcomeFirst(chunks, out, capacity);
      HasBytesConcat(data, pos, ChunkBytes(chunks[0], |out|), Encoded(chunks[1..], next));
      ChunkRoundTrip(data, pos, chunks[0], out, capacity);
      if |next| <= capacity {
        BlocksRoundTrip(data, pos + |ChunkBytes(chunks[0], |out|)|, chunks[1..], next, capacity);
      }
    }
  }

  lemma NoChunks(chunks: seq<Chunk>, out: seq<Byte>, capacity: nat)
    requires |chunks| == 0 && |out| <= capacity
    ensures ChunksFit(chunks, out) && Outcome(chunks, out, capacity) == Some(out)
  {
    assert chunks[..0] == chunks;
  }

  /**
   * Decompressing encoded blocks into a buffer of any size, also with a zero header and anything else behind them. The
   * result is what the blocks that fit stand for, and a failure when they leave room but others follow.
   */
  lemma RoundTrip(chunks: seq<Chunk>, capacity: nat, after: seq<Byte>)
    requires ChunksFit(chunks, [])
    ensures Decompressed(Encoded(chunks, []), capacity) == Outcome(chunks, [], capacity)
    ensures Decompressed(Encoded(chunks, []) + [0, 0] + after, capacity) == Outcome(chunks, [], capacity)
    ensures |ChunksOutput(chunks, [])| <= capacity ==> Outcome(chunks, [], capacity) == Some(ChunksOutput(chunks, []))
  {
    hide Blocks, Encoded, ChunksOutput, ChunksFit, Kept;
    var bytes := Encoded(chunks, []);
    assert bytes[0..0 + |bytes|] == bytes;
    BlocksRoundTrip(bytes, 0, chunks, [], capacity);
    var longer := bytes + [0, 0] + after;
    assert longer[0..0 + |bytes|] == bytes;
    BlocksRoundTrip(longer, 0, chunks, [], capacity);
    assert chunks[..|chunks|] == chunks;
    KeptLongest(chunks, [], capacity, |chunks|);
  }

  /** The string in stored blocks of up to 4096 bytes. */
  function StoredChunks(content: seq<Byte>): seq<Chunk>
    decreases |content|
  {
    if |content| == 0 then []
    else
      var n := if |content| <= 0x1000 then |content| else 0x1000;
      [Stored(content[..n])] + StoredChunks(content[n..])
  }

  lemma OneMoreChunk(c: Chunk, rest: seq<Chunk>, out: seq<Byte>)
    requires ChunkFits(c, |out|) && ChunksFit(rest, ChunkOutput(c, out))
    ensures ChunksFit([c] + rest, out) && ChunksOutput([c] + rest, out) == ChunksOutput(rest, ChunkOutput(c, out))
  {
    hide ChunkFits, ChunkOutput;
    assert ([c] + rest)[1..] == rest;
  }

  lemma {:induction false} StoredChunksFit(content: seq<Byte>, out: seq<Byte>)
    ensures ChunksFit(StoredChunks(content), out) && ChunksOutput(StoredChunks(content), out) == out + content
    decreases |content|
  {
    if |content| == 0 {
      assert out + content == out;
    } else {
      hide ChunksFit, ChunksOutput;
      var n := if |content| <= 0x1000 then |content| else 0x1000;
      StoredChunksFit(content[n..], out + content[..n]);
      OneMoreChunk(Stored(content[..n]), StoredChunks(content[n..]), out);
      assert out + content[..n] + content[n..] == out + content;
    }
  }

  /** Every string is the meaning of some data. */
  lemma EveryStringDecompresses(content: seq<Byte>, capacity: nat) returns (data: seq<Byte>)
    requires |content| <= capacity
    ensures Decompressed(data, capacity) == Some(content)
  {
    hide Blocks, Encoded, StoredChunks, ChunksFit, ChunksOutput;
    var chunks := StoredChunks(content);
    StoredChunksFit(content, []);
    assert [] + content == content;
    data := Encoded(chunks, []);
    RoundTrip(chunks, capacity, []);
  }
}
