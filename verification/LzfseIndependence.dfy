/** When the output of an LZFSE block does not depend on what the caller's buffer held before. */
module LzfseIndependence {
  import opened Options
  import opened Words
  import opened Lz77
  import opened LzfseFormat
  import opened LzfseValues
  import opened LzfseEncoder

  /** Every triple that copies has a distance in force, its own or an earlier one. */
  predicate SelfContained(ts: seq<Lmd>, distance: nat) {
    |ts| == 0 ||
    var active := if ts[0].distance != 0 then ts[0].distance else distance;
    (active != 0 || ts[0].length == 0) && SelfContained(ts[1..], active)
  }

  /** Whether a triple succeeds, and everything but the bytes it copies, does not depend on the buffer. */
  lemma SameShape(a: seq<Byte>, b: seq<Byte>, literals: seq<Byte>, p: Progress, q: Progress, t: Lmd)
    requires |a| == |b| && |p.out| == |q.out| <= |a| && p.used == q.used <= |literals| == MAXIMUM_LITERALS
    requires p.distance == q.distance
    ensures var x, y := Execute(a, literals, p, t), Execute(b, literals, q, t);
      && x.Some? == y.Some?
      && (x.Some? ==> |x.value.out| == |y.value.out| && x.value.used == y.value.used && x.value.distance == y.value.distance)
  {
  }

  lemma {:induction false} SameSuccess(a: seq<Byte>, b: seq<Byte>, literals: seq<Byte>, p: Progress, q: Progress, ts: seq<Lmd>)
    requires |a| == |b| && |p.out| == |q.out| <= |a| && p.used == q.used <= |literals| == MAXIMUM_LITERALS
    requires p.distance == q.distance
    ensures ExecuteAll(a, literals, p, ts).Some? == ExecuteAll(b, literals, q, ts).Some?
    decreases |ts|
  {
    hide Execute;
    if |ts| > 0 {
      SameShape(a, b, literals, p, q, ts[0]);
      var x, y := Execute(a, literals, p, ts[0]), Execute(b, literals, q, ts[0]);
      if x.Some? {
        SameSuccess(a, b, literals, x.value, y.value, ts[1..]);
      }
    }
  }

  /** What is written stays. */
  lemma {:induction false} OutputGrows(a: seq<Byte>, literals: seq<Byte>, p: Progress, ts: seq<Lmd>, i: nat)
    requires |p.out| <= |a| && p.used <= |literals| == MAXIMUM_LITERALS && i < |p.out|
    requires ExecuteAll(a, literals, p, ts).Some?
    ensures var out := ExecuteAll(a, literals, p, ts).value.out; |out| >= |p.out| && out[i] == p.out[i]
    decreases |ts|
  {
    hide Execute;
    if |ts| > 0 {
      StepGrows(a, literals, p, ts[0], i);
      OutputGrows(a, literals, Execute(a, literals, p, ts[0]).value, ts[1..], i);
    }
  }

  lemma StepGrows(a: seq<Byte>, literals: seq<Byte>, p: Progress, t: Lmd, i: nat)
    requires |p.out| <= |a| && p.used <= |literals| == MAXIMUM_LITERALS && i < |p.out|
    requires Execute(a, literals, p, t).Some?
    ensures var out := Execute(a, literals, p, t).value.out; |out| >= |p.out| && out[i] == p.out[i]
  {
    hide CopyMatch, AsI32;
    var out := p.out + literals[p.used..p.used + t.literals];
    var distance := if t.distance != 0 then t.distance else p.distance;
    var r := CopyBack(a, out, distance, t.length);
    assert r[..|out|] == out;
    assert r[i] == r[..|out|][i] == out[i];
  }

  lemma ClosedStep(a: seq<Byte>, b: seq<Byte>, literals: seq<Byte>, p: Progress, t: Lmd)
    requires |a| == |b| && |p.out| <= |a| && p.used <= |literals| == MAXIMUM_LITERALS
    requires t.distance != 0 || p.distance != 0 || t.length == 0
    ensures Execute(a, literals, p, t) == Execute(b, literals, p, t)
  {
    hide CopyMatch, AsI32;
  }

  lemma {:induction false} ClosedRun(a: seq<Byte>, b: seq<Byte>, literals: seq<Byte>, p: Progress, ts: seq<Lmd>)
    requires |a| == |b| && |p.out| <= |a| && p.used <= |literals| == MAXIMUM_LITERALS
    requires SelfContained(ts, p.distance)
    ensures ExecuteAll(a, literals, p, ts) == ExecuteAll(b, literals, p, ts)
    decreases |ts|
  {
    hide Execute;
    if |ts| > 0 {
      ClosedStep(a, b, literals, p, ts[0]);
      DistanceInForce(a, literals, p, ts[0]);
      var x := Execute(a, literals, p, ts[0]);
      if x.Some? {
        ClosedRun(a, b, literals, x.value, ts[1..]);
      }
    }
  }

  lemma DistanceInForce(a: seq<Byte>, literals: seq<Byte>, p: Progress, t: Lmd)
    requires |p.out| <= |a| && p.used <= |literals| == MAXIMUM_LITERALS
    ensures Execute(a, literals, p, t).Some? ==>
      Execute(a, literals, p, t).value.distance == if t.distance != 0 then t.distance else p.distance
  {
  }

  /** A triple that copies with distance 0 puts the buffer's own byte into the output. */
  lemma OpenStep(a: seq<Byte>, literals: seq<Byte>, p: Progress, t: Lmd)
    requires |p.out| <= |a| && p.used <= |literals| == MAXIMUM_LITERALS
    requires t.distance == 0 && p.distance == 0 && t.length > 0 && Execute(a, literals, p, t).Some?
    ensures var out, i := Execute(a, literals, p, t).value.out, |p.out| + t.literals;
      i < |out| && i < |a| && out[i] == a[i]
  {
    hide AsI32;
  }

  /** A run that is not self-contained shows a byte of the buffer in its output. */
  lemma {:induction false} OpenRun(a: seq<Byte>, literals: seq<Byte>, p: Progress, ts: seq<Lmd>) returns (i: nat)
    requires |p.out| <= |a| && p.used <= |literals| == MAXIMUM_LITERALS
    requires !SelfContained(ts, p.distance) && ExecuteAll(a, literals, p, ts).Some?
    ensures |p.out| <= i < |a|
    ensures forall b :: |b| == |a| ==> Shows(b, literals, p, ts, i)
    decreases |ts|
  {
    hide Execute;
    if p.distance == 0 == ts[0].distance && ts[0].length > 0 {
      i := |p.out| + ts[0].literals;
      OpenStep(a, literals, p, ts[0]);
      forall b: seq<Byte> | |b| == |a| ensures Shows(b, literals, p, ts, i) {
        SameSuccess(a, b, literals, p, p, ts);
        OpenStep(b, literals, p, ts[0]);
        OutputGrows(b, literals, Execute(b, literals, p, ts[0]).value, ts[1..], i);
      }
    } else {
      DistanceInForce(a, literals, p, ts[0]);
      i := OpenRun(a, literals, Execute(a, literals, p, ts[0]).value, ts[1..]);
      forall b: seq<Byte> | |b| == |a| ensures Shows(b, literals, p, ts, i) {
        ClosedStep(a, b, literals, p, ts[0]);
        assert Shows(b, literals, Execute(a, literals, p, ts[0]).value, ts[1..], i);
      }
    }
  }

  /** Byte i of the output is byte i of the buffer. */
  ghost predicate Shows(b: seq<Byte>, literals: seq<Byte>, p: Progress, ts: seq<Lmd>, i: nat) {
    && |p.out| <= |b| && p.used <= |literals| == MAXIMUM_LITERALS && i < |b|
    && ExecuteAll(b, literals, p, ts).Some?
    && i < |ExecuteAll(b, literals, p, ts).value.out|
    && ExecuteAll(b, literals, p, ts).value.out[i] == b[i]
  }

  /** The output is the same for every buffer of this size. */
  ghost predicate BufferIndependent(size: nat, literals: seq<Byte>, p: Progress, ts: seq<Lmd>)
    requires |p.out| <= size && p.used <= |literals| == MAXIMUM_LITERALS
  {
    forall a: seq<Byte>, b: seq<Byte> :: |a| == |b| == size ==>
      ExecuteAll(a, literals, p, ts) == ExecuteAll(b, literals, p, ts)
  }

  /** A run that succeeds is independent of the buffer exactly when it is self-contained. */
  lemma IndependentIff(a: seq<Byte>, literals: seq<Byte>, p: Progress, ts: seq<Lmd>)
    requires |p.out| <= |a| && p.used <= |literals| == MAXIMUM_LITERALS && ExecuteAll(a, literals, p, ts).Some?
    ensures BufferIndependent(|a|, literals, p, ts) <==> SelfContained(ts, p.distance)
  {
    hide ExecuteAll, SelfContained;
    if SelfContained(ts, p.distance) {
      forall x: seq<Byte>, y: seq<Byte> | |x| == |y| == |a|
        ensures ExecuteAll(x, literals, p, ts) == ExecuteAll(y, literals, p, ts)
      {
        ClosedRun(x, y, literals, p, ts);
      }
    } else {
      var i := OpenRun(a, literals, p, ts);
      var b := a[i := if a[i] == 0 then 1 else 0];
      assert Shows(a, literals, p, ts, i) && Shows(b, literals, p, ts, i);
    }
  }

  // ---- Blocks ----

  /** The triples that a block holds, if they can be read. */
  function Triples(d: Decoder, data: seq<Byte>, offset: nat): Option<seq<Lmd>> {
    var end := offset + d.literalsDataSize + d.lmdValuesDataSize;
    if end > |data| || !SkipInBounds(d.lmdValuesBits) then None
    else
      var states := LmdStates(d.lValueState, d.mValueState, d.dValueState);
      match LmdValues(d, states, BitsBefore(data, end), -d.lmdValuesBits, d.numberOfLmdValues)
      case None => None
      case Some((ts, _)) => Some(ts)
  }

  /** A block is its triples carried out with its literals; only that can depend on the buffer. */
  lemma BlockIsRun(d: Decoder, data: seq<Byte>, offset: nat, a: seq<Byte>, start: nat) returns (literals: seq<Byte>)
    requires |d.literalStates| == 4 && offset <= |data| && start <= |a| && Block(d, data, offset, a, start).Some?
    ensures |literals| == MAXIMUM_LITERALS && Triples(d, data, offset).Some?
    ensures ExecuteAll(a, literals, Progress(a[..start], 0, 0), Triples(d, data, offset).value).Some?
    ensures forall b :: |b| == |a| ==>
      Block(d, data, offset, b, start) ==
      Outcome(ExecuteAll(b, literals, Progress(b[..start], 0, 0), Triples(d, data, offset).value))
  {
    hide LmdValues, ExecuteAll, Literals, BitsBefore, Filled;
    literals := Filled(Literals(d, BitsBefore(data, offset + d.literalsDataSize)).value.0);
  }

  /** The output of a block is the same whatever the buffer holds behind the bytes written already. */
  ghost predicate BlockIndependent(d: Decoder, data: seq<Byte>, offset: nat, a: seq<Byte>, start: nat)
    requires |d.literalStates| == 4 && offset <= |data| && start <= |a|
  {
    forall b: seq<Byte> :: |b| == |a| && b[..start] == a[..start] ==>
      Block(d, data, offset, b, start) == Block(d, data, offset, a, start)
  }

  /** The output of a block that succeeds is independent of the buffer exactly when its triples are self-contained. */
  lemma BlockIndependentIff(d: Decoder, data: seq<Byte>, offset: nat, a: seq<Byte>, start: nat)
    requires |d.literalStates| == 4 && offset <= |data| && start <= |a| && Block(d, data, offset, a, start).Some?
    ensures Triples(d, data, offset).Some?
    ensures BlockIndependent(d, data, offset, a, start) <==> SelfContained(Triples(d, data, offset).value, 0)
  {
    hide ExecuteAll, SelfContained, Block, Triples;
    var literals := BlockIsRun(d, data, offset, a, start);
    var ts, p := Triples(d, data, offset).value, Progress(a[..start], 0, 0);
    if SelfContained(ts, 0) {
      forall b: seq<Byte> | |b| == |a| && b[..start] == a[..start]
        ensures Block(d, data, offset, b, start) == Block(d, data, offset, a, start)
      {
        ClosedRun(a, b, literals, p, ts);
      }
    } else {
      var i := OpenRun(a, literals, p, ts);
      var b := a[i := if a[i] == 0 then 1 else 0];
      assert b[..start] == a[..start];
      assert Shows(a, literals, p, ts, i) && Shows(b, literals, p, ts, i);
      assert Block(d, data, offset, b, start) != Block(d, data, offset, a, start);
    }
  }

  // ---- A block that shows the buffer ----

  /** No literals, and one copy of one byte without a distance. */
  lemma EarlyCopySuits() returns (e: Endings)
    ensures Suits(EvenFrequencies(), [], [Lmd(0, 1, 0)], e)
  {
    hide ValueCode.Valid, Writable, Frequencies.Valid, Pow2, Frequencies.L, Frequencies.M, Frequencies.D;
    EvenFrequenciesValid();
    CodesValid(EvenFrequencies());
    EvenWritable(Lmd(0, 1, 0));
    e := Endings([0, 0, 0, 0], LmdStates(0, 0, 0), [], []);
  }

  lemma EarlyCopy(buffer: seq<Byte>, literals: seq<Byte>)
    requires |buffer| == 1 && |literals| == MAXIMUM_LITERALS
    ensures ExecuteAll(buffer, literals, Progress(buffer[..0], 0, 0), [Lmd(0, 1, 0)]) == Some(Progress(buffer, 0, 0))
  {
    var ts, p := [Lmd(0, 1, 0)], Progress(buffer[..0], 0, 0);
    assert p.out + literals[0..0] == [] && CopyBack(buffer, [], 0, 1) == buffer;
    assert Execute(buffer, literals, p, ts[0]) == Some(Progress(buffer, 0, 0));
    assert ts[1..] == [];
  }

  /** There is a block whose output is whatever byte the buffer held, so it differs from buffer to buffer. */
  lemma BufferShown() returns (f: Frequencies, d: Decoder, data: seq<Byte>)
    ensures f.Valid() && HasTables(d, f)
    ensures forall x: Byte :: Block(d, data, 0, [x], 0) == Some([x])
    ensures Block(d, data, 0, [0], 0) != Block(d, data, 0, [1], 0)
  {
    hide Frequencies.Valid, IsWidened, Block, ExecuteAll, EncodeBlock, EvenFrequencies, Describes, EncodedBlock.LiteralData,
         EncodedBlock.LmdData, DecoderFor, Frequencies.L, Frequencies.M, Frequencies.D, ValueCode.Valid, Filled;
    var ts := [Lmd(0, 1, 0)];
    f := EvenFrequencies();
    var e := EarlyCopySuits();
    var b := EncodeBlock(f, [], ts, e);
    d := DecoderFor(f, b, 0, 1);
    data := [] + b.Data() + [];
    DecoderDescribes(f, [], ts, e, 0);
    forall x: Byte ensures Block(d, data, 0, [x], 0) == Some([x]) {
      BlockRoundTrip(d, f, [], ts, e, [], [], [x], 0);
      EarlyCopy([x], Filled([]));
    }
    assert Block(d, data, 0, [0], 0) == Some([0]) && Block(d, data, 0, [1], 0) == Some([1]);
    assert [0][0] != [1][0];
  }
}
