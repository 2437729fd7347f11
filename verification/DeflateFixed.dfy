/** The fixed codes of section 3.2.6 of RFC 1951, and a stream that uses them, bit by bit. */
module DeflateFixed {
  import opened Options
  import opened Words
  import opened Bits
  import opened CountingSort
  import opened HuffmanCodes
  import opened Lz77
  import opened DeflateFormat
  import opened DeflateTokens
  import opened DeflateEncoder

  // ---- The codes ----

  function EightBit(n: nat): nat { if n <= 144 then n else if n <= 280 then 144 else n - 136 }

  function NineBit(n: nat): nat { if n <= 144 then 0 else if n <= 256 then n - 144 else 112 }

  function SevenBit(n: nat): nat { if n <= 256 then 0 else if n <= 280 then n - 256 else 24 }

  /** How many of the first n literals have a code of each size. */
  lemma {:induction false} LiteralCounts(f: seq<nat>, n: nat)
    requires f == FixedLiterals() && n <= 288
    ensures Count(f[..n], 7) == SevenBit(n) && Count(f[..n], 8) == EightBit(n) && Count(f[..n], 9) == NineBit(n)
    ensures forall k :: 1 <= k < 7 ==> Count(f[..n], k) == 0
  {
    hide Count;
    if n == 0 {
      NoCount();
      assert f[..0] == [];
    } else {
      LiteralCounts(f, n - 1);
      forall k: nat ensures Count(f[..n], k) == Count(f[..n - 1], k) + if f[n - 1] == k then 1 else 0 {
        CountNext(f, n - 1, k);
      }
    }
  }

  /** The table of section 3.2.6 of RFC 1951. */
  lemma LiteralCode(symbol: nat)
    requires symbol < 288
    ensures CodeOf(FixedLiterals(), symbol) ==
      if symbol < 144 then 0x30 + symbol
      else if symbol < 256 then 0x190 + (symbol - 144)
      else if symbol < 280 then symbol - 256
      else 0xc0 + (symbol - 280)
    ensures FixedLiterals()[symbol] == if symbol < 144 then 8 else if symbol < 256 then 9 else if symbol < 280 then 7 else 8
  {
    hide Count, FirstCode;
    var f: seq<nat> := FixedLiterals();
    LiteralCounts(f, symbol);
    LiteralCounts(f, 288);
    assert f[..288] == f;
    SmallestCode(f, 7);
    NextSizes(f);
  }

  lemma NextSizes(f: seq<nat>)
    ensures FirstCode(f, 8) == 2 * (FirstCode(f, 7) + Count(f, 7)) && FirstCode(f, 9) == 2 * (FirstCode(f, 8) + Count(f, 8))
  {
    hide Count;
  }

  lemma {:induction false} DistanceCounts(f: seq<nat>, n: nat)
    requires f == FixedDistances() && n <= 30
    ensures Count(f[..n], 5) == n && forall k :: 1 <= k < 5 ==> Count(f[..n], k) == 0
  {
    hide Count;
    if n == 0 {
      NoCount();
      assert f[..0] == [];
    } else {
      DistanceCounts(f, n - 1);
      forall k: nat ensures Count(f[..n], k) == Count(f[..n - 1], k) + if f[n - 1] == k then 1 else 0 {
        CountNext(f, n - 1, k);
      }
    }
  }

  /** Distance codes are the numbers from 0 to 29 in five bits. */
  lemma DistanceCode(symbol: nat)
    requires symbol < 30
    ensures CodeOf(FixedDistances(), symbol) == symbol && FixedDistances()[symbol] == 5
  {
    hide Count, FirstCode;
    var f: seq<nat> := FixedDistances();
    DistanceCounts(f, symbol);
    DistanceCounts(f, 30);
    assert f[..30] == f;
    SmallestCode(f, 5);
  }

  // ---- A stream, bit by bit ----

  /** Two literals, a match of the largest length and the end of the block. */
  const TOKENS: seq<Token> := [Literal(0x61), Literal(0x62), Copy(258, 2)]

  /** The bytes of a stream of one fixed block with these tokens. */
  const STREAM: seq<Byte> := [0x4b, 0x4c, 0x1a, 0x85, 0x00]

  lemma StreamBytes()
    ensures LsbBits(0x4b, 8) == [1, 1, 0, 1, 0, 0, 1, 0] && LsbBits(0x4c, 8) == [0, 0, 1, 1, 0, 0, 1, 0]
    ensures LsbBits(0x1a, 8) == [0, 1, 0, 1, 1, 0, 0, 0] && LsbBits(0x85, 8) == [1, 0, 1, 0, 0, 0, 0, 1]
    ensures LsbBits(0x00, 8) == [0, 0, 0, 0, 0, 0, 0, 0]
  {
    hide LsbBits;
    LsbOctetBits([1, 1, 0, 1, 0, 0, 1, 0]);
    LsbOctetBits([0, 0, 1, 1, 0, 0, 1, 0]);
    LsbOctetBits([0, 1, 0, 1, 1, 0, 0, 0]);
    LsbOctetBits([1, 0, 1, 0, 0, 0, 0, 1]);
    LsbOctetBits([0, 0, 0, 0, 0, 0, 0, 0]);
  }

  lemma MsbByte(x: nat, b: seq<Bit>)
    requires |b| == 8 && x == LsbOctet([b[7], b[6], b[5], b[4], b[3], b[2], b[1], b[0]])
    ensures MsbBits(x, 8) == b
  {
    hide LsbBits, MsbBits, LsbOctet;
    var r := [b[7], b[6], b[5], b[4], b[3], b[2], b[1], b[0]];
    LsbOctetBits(r);
    forall k | 0 <= k < 8 ensures MsbBits(x, 8)[k] == b[k] {
      MsbIsLsbReversed(x, 8, k);
    }
  }

  lemma CodeNumbers()
    ensures MsbBits(0x91, 8) == [1, 0, 0, 1, 0, 0, 0, 1] && MsbBits(0x92, 8) == [1, 0, 0, 1, 0, 0, 1, 0]
    ensures MsbBits(0xc5, 8) == [1, 1, 0, 0, 0, 1, 0, 1]
  {
    hide MsbBits;
    MsbByte(0x91, [1, 0, 0, 1, 0, 0, 0, 1]);
    MsbByte(0x92, [1, 0, 0, 1, 0, 0, 1, 0]);
    MsbByte(0xc5, [1, 1, 0, 0, 0, 1, 0, 1]);
  }

  lemma SmallNumbers()
    ensures LsbBits(3, 3) == [1, 1, 0] && MsbBits(1, 5) == [0, 0, 0, 0, 1] && MsbBits(0, 7) == [0, 0, 0, 0, 0, 0, 0]
  {
  }

  lemma DataBits()
    ensures BitsOf(LsbFirst, STREAM) ==
      LsbBits(0x4b, 8) + (LsbBits(0x4c, 8) + (LsbBits(0x1a, 8) + (LsbBits(0x85, 8) + LsbBits(0x00, 8))))
  {
    hide LsbBits, BitsOf;
    var d5: seq<Byte> := [];
    var d4: seq<Byte> := [0x00] + d5;
    var d3: seq<Byte> := [0x85] + d4;
    var d2: seq<Byte> := [0x1a] + d3;
    var d1: seq<Byte> := [0x4c] + d2;
    BitsOfCons(LsbFirst, 0x00, d5);
    BitsOfCons(LsbFirst, 0x85, d4);
    BitsOfCons(LsbFirst, 0x1a, d3);
    BitsOfCons(LsbFirst, 0x4c, d2);
    BitsOfCons(LsbFirst, 0x4b, d1);
    assert STREAM == [0x4b] + d1;
    assert BitsOf(LsbFirst, d5) == [];
    assert LsbBits(0x00, 8) + [] == LsbBits(0x00, 8);
  }

  lemma TokenCodes(c: Codes)
    requires c == FixedCodes()
    ensures AllEncodable(c, TOKENS)
    ensures TokenBits(c, TOKENS[0]) == MsbBits(0x91, 8) && TokenBits(c, TOKENS[1]) == MsbBits(0x92, 8)
    ensures TokenBits(c, TOKENS[2]) == MsbBits(0xc5, 8) + MsbBits(1, 5) && CodeBits(c.literals, 256) == MsbBits(0, 7)
  {
    hide MsbBits, LsbBits, CodeOf, FixedLiterals, FixedDistances, LengthIndex, DistanceIndex, LengthBase, LengthExtra, DistanceBase,
         DistanceExtra;
    LiteralCode(0x61);
    LiteralCode(0x62);
    LiteralCode(285);
    LiteralCode(256);
    DistanceCode(1);
    LargestIndex();
    LengthClosed(28);
    DistanceClosed(1);
    NoExtra();
    var code, rest := MsbBits(0xc5, 8), MsbBits(1, 5);
    assert code + ([] + (rest + [])) == code + rest;
  }

  lemma NoExtra()
    ensures LsbBits(0, 0) == []
  {
  }

  lemma LargestIndex()
    ensures LengthIndex(258, 28) == 28 && DistanceIndex(2, 29) == 1
  {
    hide LengthBase, DistanceBase;
    LengthClosed(28);
    DistanceClosed(1);
    DistanceClosed(2);
    var d := DistanceIndex(2, 29);
    SmallDistances(d);
  }

  lemma SmallDistances(d: nat)
    requires d < 30 && DistanceBase(d) <= 2
    ensures d <= 1
  {
  }

  lemma TokensRun()
    ensures Reachable(TOKENS, 0) && |Expand(TOKENS, [])| == 260
    ensures forall i :: 0 <= i < 260 ==> Expand(TOKENS, [])[i] == if i % 2 == 0 then 0x61 else 0x62
  {
    hide CopyMatch;
    var two: seq<Byte> := [0x61, 0x62];
    assert TOKENS[1..] == [Literal(0x62), Copy(258, 2)] && TOKENS[1..][1..] == [Copy(258, 2)];
    assert [Copy(258, 2)][1..] == [] && [] + [0x61] == [0x61] && [0x61] + [0x62] == two;
    var r := CopyMatch(two, 2, 258);
    assert Expand(TOKENS, []) == r;
    Alternates(r, 260);
  }

  lemma {:induction false} Alternates(r: seq<Byte>, n: nat)
    requires |r| == 260 && r[..2] == [0x61, 0x62] && (forall i :: 2 <= i < 260 ==> r[i] == r[i - 2]) && n <= 260
    ensures forall i :: 0 <= i < n ==> r[i] == if i % 2 == 0 then 0x61 else 0x62
  {
    if n > 0 {
      Alternates(r, n - 1);
      assert r[0] == r[..2][0] && r[1] == r[..2][1];
      if n > 2 {
        assert r[n - 1] == r[n - 1 - 2];
      }
    }
  }

  lemma StreamUnfolded()
    requires AllEncodable(FixedCodes(), TOKENS) && Reachable(TOKENS, 0)
    ensures ValidBlocks([FixedTokens(TOKENS)], [])
    ensures StreamBits([FixedTokens(TOKENS)], [], 0, true) == LsbBits(3, 3) + TokensBits(FixedCodes(), TOKENS)
  {
    hide LsbBits, TokensBits, AllEncodable, Expand, Reachable, FixedCodes;
    var blocks := [FixedTokens(TOKENS)];
    assert blocks[1..] == [];
    var header, body := LsbBits(3, 3), TokensBits(FixedCodes(), TOKENS);
    assert header + (body + []) == header + body;
  }

  /** The bits of the five bytes, cut into header, codes and one bit of padding. */
  lemma BitsCut()
    ensures BitsOf(LsbFirst, STREAM) ==
      LsbBits(3, 3)
      + (MsbBits(0x91, 8) + (MsbBits(0x92, 8) + ((MsbBits(0xc5, 8) + MsbBits(1, 5)) + MsbBits(0, 7)))) + [0]
  {
    hide LsbBits, MsbBits, BitsOf;
    StreamBytes();
    CodeNumbers();
    SmallNumbers();
    DataBits();
  }

  lemma StreamIs()
    ensures ValidBlocks([FixedTokens(TOKENS)], [])
    ensures BitsOf(LsbFirst, STREAM) == StreamBits([FixedTokens(TOKENS)], [], 0, true) + [0]
  {
    hide LsbBits, MsbBits, BitsOf, TokenBits, CodeBits, AllEncodable, Expand, Reachable, FixedCodes, StreamBits, TokensBits, ValidBlocks;
    var c := FixedCodes();
    TokenCodes(c);
    TokensRun();
    StreamUnfolded();
    TokensListed(c);
    BitsCut();
  }

  lemma TokensListed(c: Codes)
    requires AllEncodable(c, TOKENS)
    ensures TokensBits(c, TOKENS) ==
      TokenBits(c, TOKENS[0]) + (TokenBits(c, TOKENS[1]) + (TokenBits(c, TOKENS[2]) + CodeBits(c.literals, 256)))
  {
    hide TokenBits, CodeBits, DeflateTokens.Encodable;
    var t1, t2, t3 := TOKENS[1..], TOKENS[1..][1..], TOKENS[1..][1..][1..];
    assert t1[0] == TOKENS[1] && t2[0] == TOKENS[2] && t3 == [];
    assert TokensBits(c, t3) == CodeBits(c.literals, 256);
    assert TokensBits(c, t2) == TokenBits(c, t2[0]) + TokensBits(c, t3);
    assert TokensBits(c, t1) == TokenBits(c, t1[0]) + TokensBits(c, t2);
  }

  /** Five bytes that stand for 260 bytes "abab...": header, codes, match and end of block are read as RFC 1951 has them. */
  lemma KnownAnswer(capacity: nat)
    requires capacity >= 260
    ensures var r := Inflated([0x4b, 0x4c, 0x1a, 0x85, 0x00], capacity);
      r.Some? && |r.value| == 260 && forall i :: 0 <= i < 260 ==> r.value[i] == if i % 2 == 0 then 0x61 else 0x62
  {
    hide StreamBits, BitsOf, Expand, Reachable, Blocks, ValidBlocks, Has;
    var blocks := [FixedTokens(TOKENS)];
    StreamIs();
    TokensRun();
    var bits := StreamBits(blocks, [], 0, true);
    HasPrefix(BitsOf(LsbFirst, STREAM), bits);
    assert blocks[1..] == [];
    BlocksRoundTrip(STREAM, 0, blocks, true, [], capacity);
  }

  lemma HasPrefix(s: seq<Bit>, bits: seq<Bit>)
    requires s == bits + [0]
    ensures Has(s, 0, bits)
  {
  }
}
