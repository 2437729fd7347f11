/** Literal and match tokens, their DEFLATE bits, and reading those bits back. */
module DeflateTokens {
  import opened Options
  import opened Words
  import opened Bits
  import opened HuffmanCodes
  import opened Lz77
  import opened DeflateFormat

  // ---- Length and distance codes ----

  /** The tables leave no gap and no overlap, except that 258 has a code of its own. */
  lemma LengthTable(k: nat)
    requires k < 28
    ensures LengthBase(k) + Pow2(LengthExtra(k)) == LengthBase(k + 1) + if k == 27 then 1 else 0
  {
    Pow2Table();
  }

  lemma DistanceTable(k: nat)
    requires k < 29
    ensures DistanceBase(k) + Pow2(DistanceExtra(k)) == DistanceBase(k + 1)
  {
    Pow2Table();
    MorePowers();
  }

  function LengthIndex(length: nat, k: nat): (r: nat)
    requires length >= 3 && k < 29
    ensures r <= k && LengthBase(r) <= length && (r < k ==> length < LengthBase(r + 1))
  {
    if LengthBase(k) <= length || k == 0 then k else LengthIndex(length, k - 1)
  }

  function DistanceIndex(distance: nat, k: nat): (r: nat)
    requires distance >= 1 && k < 30
    ensures r <= k && DistanceBase(r) <= distance && (r < k ==> distance < DistanceBase(r + 1))
  {
    if DistanceBase(k) <= distance || k == 0 then k else DistanceIndex(distance, k - 1)
  }

  lemma LengthExtraFits(length: nat)
    requires 3 <= length <= 258
    ensures var k := LengthIndex(length, 28); length - LengthBase(k) < Pow2(LengthExtra(k))
  {
    hide LengthBase, LengthExtra;
    var k := LengthIndex(length, 28);
    if k < 28 {
      LengthTable(k);
    } else {
      LastCodes();
    }
  }

  lemma DistanceExtraFits(distance: nat)
    requires 1 <= distance <= 32768
    ensures var k := DistanceIndex(distance, 29); distance - DistanceBase(k) < Pow2(DistanceExtra(k))
  {
    hide DistanceBase, DistanceExtra;
    var k := DistanceIndex(distance, 29);
    if k < 29 {
      DistanceTable(k);
    } else {
      LastCodes();
      MorePowers();
    }
  }

  lemma LastCodes()
    ensures LengthBase(28) == 258 && DistanceBase(29) == 24577 && DistanceExtra(29) == 13
  {
  }

  // ---- Bits ----

  /** The symbols of a token have codes. */
  ghost predicate Encodable(c: Codes, token: Token) {
    match token
    case Literal(byte) => byte < |c.literals| && c.literals[byte] > 0
    case Copy(length, distance) =>
      && 3 <= length <= 258 && 1 <= distance <= 32768
      && 257 + LengthIndex(length, 28) < |c.literals| && c.literals[257 + LengthIndex(length, 28)] > 0
      && DistanceIndex(distance, 29) < |c.distances| && c.distances[DistanceIndex(distance, 29)] > 0
  }

  ghost function TokenBits(c: Codes, token: Token): seq<Bit>
    requires Encodable(c, token)
  {
    match token
    case Literal(byte) => CodeBits(c.literals, byte)
    case Copy(length, distance) =>
      var k, d := LengthIndex(length, 28), DistanceIndex(distance, 29);
      CodeBits(c.literals, 257 + k) +
      (LsbBits(length - LengthBase(k), LengthExtra(k)) +
       (CodeBits(c.distances, d) + LsbBits(distance - DistanceBase(d), DistanceExtra(d))))
  }

  ghost predicate AllEncodable(c: Codes, tokens: seq<Token>) {
    && 256 < |c.literals| && c.literals[256] > 0
    && forall i :: 0 <= i < |tokens| ==> Encodable(c, tokens[i])
  }

  /** The tokens and the end-of-block code. */
  ghost function TokensBits(c: Codes, tokens: seq<Token>): seq<Bit>
    requires AllEncodable(c, tokens)
    decreases |tokens|
  {
    if |tokens| == 0 then CodeBits(c.literals, 256)
    else TokenBits(c, tokens[0]) + TokensBits(c, tokens[1..])
  }

  // ---- Reading back ----

  lemma ReadParts(c: Codes, s: seq<Bit>, pos: nat, k: nat, extraLength: nat, d: nat, extraDistance: nat)
    requires c.Valid() && k < 29 && d < |c.distances| && c.distances[d] > 0
    requires 257 + k < |c.literals| && c.literals[257 + k] > 0
    requires extraLength < Pow2(LengthExtra(k)) && extraDistance < Pow2(DistanceExtra(d))
    requires Has(s, pos, CodeBits(c.literals, 257 + k) +
      (LsbBits(extraLength, LengthExtra(k)) + (CodeBits(c.distances, d) + LsbBits(extraDistance, DistanceExtra(d)))))
    ensures Decode(c.literals, s, pos) == Some(257 + k)
    ensures MatchAt(c.distances, s, pos + c.literals[257 + k], 257 + k) ==
      Some(Match(LengthBase(k) + extraLength, DistanceBase(d) + extraDistance,
                 pos + c.literals[257 + k] + LengthExtra(k) + c.distances[d] + DistanceExtra(d)))
  {
    hide Has, Decode, LsbBits, LsbValue, LengthBase, LengthExtra, DistanceBase, DistanceExtra, Acceptable, Pow2;
    var p1 := pos + c.literals[257 + k];
    var p2 := p1 + LengthExtra(k);
    var p3 := p2 + c.distances[d];
    var last := LsbBits(extraDistance, DistanceExtra(d));
    var middle := LsbBits(extraLength, LengthExtra(k));
    HasConcat(s, pos, CodeBits(c.literals, 257 + k), middle + (CodeBits(c.distances, d) + last));
    HasConcat(s, p1, middle, CodeBits(c.distances, d) + last);
    HasConcat(s, p2, CodeBits(c.distances, d), last);
    DecodeCode(c.literals, LARGEST, s, pos, 257 + k);
    DecodeCode(c.distances, LARGEST, s, p2, d);
    ReadLsbExact(s, p1, extraLength, LengthExtra(k));
    ReadLsbExact(s, p3, extraDistance, DistanceExtra(d));
  }

  lemma SizesOfCodes(c: Codes)
    requires c.Valid()
    ensures |c.literals| <= 288 && |c.distances| <= 30
  {
  }

  lemma ReadCopy(c: Codes, s: seq<Bit>, pos: nat, length: nat, distance: nat)
    requires c.Valid() && Encodable(c, Copy(length, distance)) && Has(s, pos, TokenBits(c, Copy(length, distance)))
    ensures var symbol := 257 + LengthIndex(length, 28);
      && Decode(c.literals, s, pos) == Some(symbol)
      && MatchAt(c.distances, s, pos + c.literals[symbol], symbol) ==
         Some(Match(length, distance, pos + |TokenBits(c, Copy(length, distance))|))
  {
    hide Has, Decode, MatchAt, LsbBits, CodeBits, LengthBase, LengthExtra, DistanceBase, DistanceExtra, LengthIndex,
         DistanceIndex, Codes.Valid, Pow2;
    var k, d := LengthIndex(length, 28), DistanceIndex(distance, 29);
    SizesOfCodes(c);
    LengthExtraFits(length);
    DistanceExtraFits(distance);
    ReadParts(c, s, pos, k, length - LengthBase(k), d, distance - DistanceBase(d));
  }

  lemma LiteralStep(c: Codes, s: seq<Bit>, pos: nat, byte: Byte, out: seq<Byte>, capacity: nat)
    requires c.Valid() && Encodable(c, Literal(byte)) && Has(s, pos, TokenBits(c, Literal(byte)))
    ensures CompressedBlock(c, s, pos, out, capacity) ==
      if |out| < capacity then CompressedBlock(c, s, pos + |TokenBits(c, Literal(byte))|, out + [byte], capacity) else None
  {
    hide Has, Decode, MatchAt, CopyMatch, Acceptable;
    DecodeCode(c.literals, LARGEST, s, pos, byte);
  }

  lemma CopyStep(c: Codes, s: seq<Bit>, pos: nat, length: nat, distance: nat, out: seq<Byte>, capacity: nat)
    requires c.Valid() && Encodable(c, Copy(length, distance)) && Has(s, pos, TokenBits(c, Copy(length, distance)))
    ensures distance >= 1
    ensures CompressedBlock(c, s, pos, out, capacity) ==
      if distance <= |out| && |out| + length <= capacity then
        CompressedBlock(c, s, pos + |TokenBits(c, Copy(length, distance))|, CopyMatch(out, distance, length), capacity)
      else None
  {
    hide Has, Decode, MatchAt, CopyMatch, Acceptable, TokenBits, LengthIndex, DistanceIndex;
    ReadCopy(c, s, pos, length, distance);
  }

  lemma EndStep(c: Codes, s: seq<Bit>, pos: nat, out: seq<Byte>, capacity: nat)
    requires c.Valid() && END_OF_BLOCK < |c.literals| && c.literals[END_OF_BLOCK] > 0
    requires Has(s, pos, CodeBits(c.literals, END_OF_BLOCK))
    ensures CompressedBlock(c, s, pos, out, capacity) == Some((out, pos + c.literals[END_OF_BLOCK]))
  {
    hide Has, Decode, MatchAt, CopyMatch, Acceptable;
    DecodeCode(c.literals, LARGEST, s, pos, END_OF_BLOCK);
  }

  /**
   * A compressed block written from tokens is read back to what the tokens stand for exactly when every match stays within
   * the output and there is room; otherwise it is refused.
   */
  lemma {:induction false} TokensRoundTrip(c: Codes, s: seq<Bit>, pos: nat, tokens: seq<Token>, out: seq<Byte>, capacity: nat)
    requires c.Valid() && AllEncodable(c, tokens) && |out| <= capacity
    requires Has(s, pos, TokensBits(c, tokens))
    ensures CompressedBlock(c, s, pos, out, capacity) ==
      if Reachable(tokens, |out|) && |Expand(tokens, out)| <= capacity then Some((Expand(tokens, out), pos + |TokensBits(c, tokens)|)) else None
    decreases |tokens|
  {
    hide Has, TokenBits, CopyMatch, CompressedBlock, Codes.Valid, Encodable;
    SizesOfCodes(c);
    if |tokens| == 0 {
      EndStep(c, s, pos, out, capacity);
    } else {
      HasConcat(s, pos, TokenBits(c, tokens[0]), TokensBits(c, tokens[1..]));
      var next := pos + |TokenBits(c, tokens[0])|;
      match tokens[0]
      case Literal(byte) =>
        LiteralStep(c, s, pos, byte, out, capacity);
        if |out| < capacity {
          TokensRoundTrip(c, s, next, tokens[1..], out + [byte], capacity);
        }
      case Copy(length, distance) =>
        CopyStep(c, s, pos, length, distance, out, capacity);
        if distance <= |out| && |out| + length <= capacity {
          TokensRoundTrip(c, s, next, tokens[1..], CopyMatch(out, distance, length), capacity);
        }
    }
  }
}
