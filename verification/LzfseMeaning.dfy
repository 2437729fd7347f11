/** What the triples of an LZFSE block stand for, in terms of literals and matches. */
module LzfseMeaning {
  import opened Options
  import opened Words
  import opened Lz77
  import opened LzfseFormat
  import opened LzfseIndependence
  import opened LzfseEncoder

  /** The distance in force for a triple: its own, or the last one that was not 0. */
  function InForce(t: Lmd, distance: nat): nat {
    if t.distance != 0 then t.distance else distance
  }

  /** One triple: its literals, and then a match if there is one. */
  function TripleTokens(literals: seq<Byte>, used: nat, distance: nat, t: Lmd): seq<Token>
    requires used + t.literals <= |literals|
  {
    LiteralTokens(literals[used..used + t.literals]) + if t.length > 0 then [Copy(t.length, InForce(t, distance))] else []
  }

  /** There are enough literals for all triples. */
  predicate Enough(literals: seq<Byte>, used: nat, ts: seq<Lmd>)
    decreases |ts|
  {
    |ts| == 0 || (used + ts[0].literals <= |literals| && Enough(literals, used + ts[0].literals, ts[1..]))
  }

  function Tokens(literals: seq<Byte>, used: nat, distance: nat, ts: seq<Lmd>): seq<Token>
    requires Enough(literals, used, ts)
    decreases |ts|
  {
    if |ts| == 0 then []
    else
      TripleTokens(literals, used, distance, ts[0])
      + Tokens(literals, used + ts[0].literals, InForce(ts[0], distance), ts[1..])
  }

  /** A triple that is carried out writes what its tokens stand for. */
  lemma TripleMeaning(buffer: seq<Byte>, literals: seq<Byte>, p: Progress, t: Lmd)
    requires |p.out| <= |buffer| && p.used <= |literals| == MAXIMUM_LITERALS && Execute(buffer, literals, p, t).Some?
    requires InForce(t, p.distance) != 0 || t.length == 0
    ensures p.used + t.literals <= |literals|
    ensures var tokens, q := TripleTokens(literals, p.used, p.distance, t), Execute(buffer, literals, p, t).value;
      && Reachable(tokens, |p.out|) && q.out == Expand(tokens, p.out)
      && q.used == p.used + t.literals && q.distance == InForce(t, p.distance)
  {
    hide CopyMatch, AsI32, Expand, Reachable, CopyBack;
    var bytes, distance := literals[p.used..p.used + t.literals], InForce(t, p.distance);
    var out := p.out + bytes;
    LiteralsExpand(bytes, p.out);
    if t.length > 0 {
      OneMatch(buffer, out, distance, t.length);
      ExpandAppend(LiteralTokens(bytes), [Copy(t.length, distance)], p.out);
    } else {
      NoCopy(buffer, out, distance);
      assert LiteralTokens(bytes) + [] == LiteralTokens(bytes);
    }
  }

  lemma OneMatch(buffer: seq<Byte>, out: seq<Byte>, distance: nat, length: nat)
    requires 1 <= distance <= |out| && |out| + length <= |buffer|
    ensures Reachable([Copy(length, distance)], |out|)
    ensures Expand([Copy(length, distance)], out) == CopyBack(buffer, out, distance, length)
  {
    hide CopyMatch, CopyBack;
    var tokens := [Copy(length, distance)];
    assert tokens[1..] == [];
    CopyMatchUnique(out, distance, length, CopyBack(buffer, out, distance, length));
  }

  lemma NoCopy(buffer: seq<Byte>, out: seq<Byte>, distance: nat)
    requires distance <= |out| <= |buffer|
    ensures CopyBack(buffer, out, distance, 0) == out
  {
    hide CopyBack;
    var r := CopyBack(buffer, out, distance, 0);
    assert r == r[..|out|];
  }

  /** Triples that are self-contained and carried out write what their literals and matches stand for. */
  lemma {:induction false} RunMeaning(buffer: seq<Byte>, literals: seq<Byte>, p: Progress, ts: seq<Lmd>)
    requires |p.out| <= |buffer| && p.used <= |literals| == MAXIMUM_LITERALS
    requires SelfContained(ts, p.distance) && ExecuteAll(buffer, literals, p, ts).Some?
    ensures Enough(literals, p.used, ts)
    ensures var tokens := Tokens(literals, p.used, p.distance, ts);
      Reachable(tokens, |p.out|) && ExecuteAll(buffer, literals, p, ts).value.out == Expand(tokens, p.out)
    decreases |ts|
  {
    hide Execute, TripleTokens, Expand, Reachable;
    if |ts| == 0 {
      NoTokens(p.out);
    } else {
      TripleMeaning(buffer, literals, p, ts[0]);
      var q := Execute(buffer, literals, p, ts[0]).value;
      RunMeaning(buffer, literals, q, ts[1..]);
      ExpandAppend(TripleTokens(literals, p.used, p.distance, ts[0]), Tokens(literals, q.used, q.distance, ts[1..]), p.out);
    }
  }

  lemma NoTokens(out: seq<Byte>)
    ensures Reachable([], |out|) && Expand([], out) == out
  {
  }

  /**
   * An encoded block whose triples are self-contained decodes, if it decodes at all, to the literals and matches of its
   * triples behind what the output holds already.
   */
  lemma BlockMeaning(d: Decoder, f: Frequencies, literals: seq<Byte>, ts: seq<Lmd>, e: Endings, before: seq<Byte>,
                     after: seq<Byte>, buffer: seq<Byte>, start: nat)
    requires Suits(f, literals, ts, e) && HasTables(d, f) && Describes(d, EncodeBlock(f, literals, ts, e), literals, ts)
    requires start <= |buffer| && SelfContained(ts, 0)
    requires Block(d, before + EncodeBlock(f, literals, ts, e).Data() + after, |before|, buffer, start).Some?
    ensures Enough(Filled(literals), 0, ts) && Reachable(Tokens(Filled(literals), 0, 0, ts), start)
    ensures Block(d, before + EncodeBlock(f, literals, ts, e).Data() + after, |before|, buffer, start) ==
      Some(Expand(Tokens(Filled(literals), 0, 0, ts), buffer[..start]))
  {
    hide EncodeBlock, HasTables, AllWritable, Frequencies.L, Frequencies.M, Frequencies.D, Frequencies.Valid, Describes,
         Block, ExecuteAll, SelfContained, Tokens, Enough, Expand, Reachable, Filled;
    BlockRoundTrip(d, f, literals, ts, e, before, after, buffer, start);
    RunMeaning(buffer, Filled(literals), Progress(buffer[..start], 0, 0), ts);
  }
}
