/** A DEFLATE stream that RFC 1951 allows and that the decoder refuses. */
module DeflateRefusals {
  import opened Options
  import opened Words
  import opened Bits
  import opened HuffmanCodes
  import opened Lz77
  import opened DeflateFormat
  import opened DeflateEncoder

  /** Codes of one bit for the literal 0 and the end of the block. */
  function LiteralSizes(): (r: seq<Byte>)
    ensures |r| == 257 && forall i :: 0 <= i < 257 ==> r[i] == if i == 0 || i == 256 then 1 else 0
  {
    seq<Byte>(257, i => if i == 0 || i == 256 then 1 else 0)
  }

  /** A code-length code for the symbols 0, 1 and 18. */
  function LengthSizes(): (r: seq<Byte>)
    ensures |r| == 19 && forall i :: 0 <= i < 19 ==> r[i] == if i == 1 then 1 else if i == 0 || i == 18 then 2 else 0
  {
    seq<Byte>(19, i => if i == 1 then 1 else if i == 0 || i == 18 then 2 else 0)
  }

  /** One distance code of zero bits: the block has literals only. */
  function LiteralsOnly(): Description {
    Description(LiteralSizes(), [0], LengthSizes(), 18, [One(1), ManyZeros(138), ManyZeros(117), One(1), One(0)])
  }

  /** Zero sizes add nothing to the Kraft sum. */
  lemma {:induction false} KraftZeros(sizes: seq<nat>, from: nat, largest: nat)
    requires forall i :: 0 <= i < |sizes| ==> sizes[i] <= largest
    requires from <= |sizes| && forall i :: from <= i < |sizes| ==> sizes[i] == 0
    ensures Kraft(sizes, largest) == Kraft(sizes[..from], largest)
    decreases |sizes|
  {
    if from == |sizes| {
      assert sizes[..from] == sizes;
    } else {
      var n := |sizes| - 1;
      KraftZeros(sizes[..n], from, largest);
      assert sizes[..n][..from] == sizes[..from];
    }
  }

  lemma LiteralsAcceptable()
    ensures Acceptable(LiteralSizes(), LARGEST)
  {
    hide Kraft, LiteralSizes, Pow2;
    var sizes: seq<nat> := LiteralSizes();
    var before := sizes[..256];
    NoSizes(LARGEST);
    assert before[..1][..0] == [] && sizes[..256] == before;
    KraftRun(before[..1], 0, 1, LARGEST);
    KraftZeros(before, 1, LARGEST);
    KraftRun(sizes, 256, 1, LARGEST);
    HalfAndHalf();
    assert sizes[0] != 0;
  }

  lemma HalfAndHalf()
    ensures Copies(1, Pow2(LARGEST - 1)) + Copies(1, Pow2(LARGEST - 1)) == Pow2(LARGEST)
    ensures Copies(1, Pow2(LARGEST - 2)) + Copies(1, Pow2(LARGEST - 1)) + Copies(1, Pow2(LARGEST - 2)) == Pow2(LARGEST)
  {
    Pow2Table();
    assert Pow2(14) == 2 * Pow2(13);
  }

  lemma LengthsAcceptable()
    ensures Acceptable(LengthSizes(), LARGEST) && Stored(LengthSizes(), 18)
  {
    hide Kraft, LengthSizes, Pow2;
    var sizes: seq<nat> := LengthSizes();
    var two, before := sizes[..2], sizes[..18];
    NoSizes(LARGEST);
    assert two[..1][..0] == [] && before[..2] == two;
    KraftRun(two[..1], 0, 2, LARGEST);
    KraftRun(two, 1, 1, LARGEST);
    KraftZeros(before, 2, LARGEST);
    KraftRun(sizes, 18, 2, LARGEST);
    HalfAndHalf();
    assert sizes[0] != 0;
  }

  lemma OneMoreOp(op: SizeOp, rest: seq<SizeOp>, lengths: seq<nat>, done: seq<Byte>, sizes: seq<Byte>)
    requires op.Valid(done) && |lengths| == 19 && lengths[op.Symbol()] > 0
    requires Leads(rest, lengths, op.Apply(done), sizes)
    ensures Leads([op] + rest, lengths, done, sizes)
  {
    hide SizeOp.Valid, SizeOp.Apply;
    assert ([op] + rest)[1..] == rest;
  }

  lemma OpsLead()
    ensures Leads(LiteralsOnly().ops, LengthSizes(), [], LiteralSizes() + [0])
  {
    hide Leads, LengthSizes, LiteralSizes;
    var lengths, sizes := LengthSizes(), LiteralSizes() + [0];
    var none: seq<Byte> := [];
    assert One(1).Apply(none) == sizes[..1];
    assert ManyZeros(138).Apply(sizes[..1]) == sizes[..139];
    assert ManyZeros(117).Apply(sizes[..139]) == sizes[..256];
    assert One(1).Apply(sizes[..256]) == sizes[..257];
    assert One(0).Apply(sizes[..257]) == sizes;
    var o0: seq<SizeOp> := [];
    var o1 := [One(0)] + o0;
    var o2 := [One(1)] + o1;
    var o3 := [ManyZeros(117)] + o2;
    var o4 := [ManyZeros(138)] + o3;
    NoOps(lengths, sizes);
    OneMoreOp(One(0), o0, lengths, sizes[..257], sizes);
    OneMoreOp(One(1), o1, lengths, sizes[..256], sizes);
    OneMoreOp(ManyZeros(117), o2, lengths, sizes[..139], sizes);
    OneMoreOp(ManyZeros(138), o3, lengths, sizes[..1], sizes);
    OneMoreOp(One(1), o4, lengths, none, sizes);
    assert LiteralsOnly().ops == [One(1)] + o4;
  }

  lemma NoOps(lengths: seq<nat>, sizes: seq<Byte>)
    ensures Leads([], lengths, sizes, sizes)
  {
  }

  lemma LiteralsOnlyLegal()
    ensures LiteralsOnly().Valid() && LiteralsOnly().Legal() && !LiteralsOnly().Accepted()
  {
    hide Acceptable, Stored, Leads, LiteralSizes, LengthSizes, Description.Accepted;
    LiteralsAcceptable();
    LengthsAcceptable();
    OpsLead();
    assert !LiteralsOnly().SomeDistance();
    LegalAccepted(LiteralsOnly());
  }

  /** A dynamic block that holds one literal and describes no distance code. */
  function LiteralBlock(): Block {
    DynamicTokens(LiteralsOnly(), [Literal(0)])
  }

  /** The stream of this one block stands for a zero byte, and is refused. */
  lemma LiteralBlockRefused(capacity: nat)
    ensures LiteralBlock().description.Legal()
    ensures ValidBlocks([LiteralBlock()], []) && ExpandBlocks([LiteralBlock()], []) == [0]
    ensures Inflated(Pack(LsbFirst, StreamBits([LiteralBlock()], [], 0, true)), capacity) == None
  {
    hide Description.Valid, Description.Legal, LiteralsOnly, Description.Accepted, Inflated, StreamBits, Pack;
    LiteralsOnlyLegal();
    LiteralBlockValid();
    var blocks := [LiteralBlock()];
    assert blocks[1..] == [];
    assert !AcceptedBlock(blocks[0]);
    RoundTrip(blocks, true, capacity);
  }

  lemma LiteralBlockValid()
    ensures ValidBlock(LiteralBlock(), 0) && ExpandBlock(LiteralBlock(), []) == [0]
  {
    hide Description.Valid, Description.Legal, LiteralSizes, LengthSizes;
    LiteralsOnlyLegal();
    var tokens := [Literal(0)];
    assert tokens[1..] == [];
    assert Reachable(tokens, 0) && Expand(tokens, []) == [] + [0];
  }
}
