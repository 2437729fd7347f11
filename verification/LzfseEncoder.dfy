/** An LZFSE block encoder, written backwards, and the proof that the decoder undoes it. */
module LzfseEncoder {
  import opened Options
  import opened Words
  import opened Bits
  import opened LzfseBitstreams
  import opened FseTables
  import opened FseCoding
  import opened LzfseFormat
  import opened LzfseValues

  /** The frequencies a block header announces. */
  datatype Frequencies = Frequencies(l: seq<nat>, m: seq<nat>, d: seq<nat>, literals: seq<nat>) {

    function L(): ValueCode { ValueCode(6, l, L_VALUE_BITS, L_VALUE_BASE, 316) }

    function M(): ValueCode { ValueCode(6, m, M_VALUE_BITS, M_VALUE_BASE, 2360) }

    function D(): ValueCode { ValueCode(8, d, D_VALUE_BITS, D_VALUE_BASE, 262140) }

    /** What the table builder demands, and no more. */
    ghost predicate Valid() {
      && |l| == 20 && Fits(6, l) && |m| == 20 && Fits(6, m)
      && |d| == 64 && Fits(8, d) && |literals| == 256 && Fits(10, literals)
    }
  }

  lemma CodesValid(f: Frequencies)
    requires f.Valid()
    ensures f.L().Valid() && f.M().Valid() && f.D().Valid()
  {
    hide Contiguous, Fits;
    LengthTables();
    DistanceTable();
    ValueBitsBounded();
    DistanceEnds();
  }

  // ---- Triples ----

  ghost predicate StatesInRange(states: LmdStates) {
    states.l < Pow2(6) && states.m < Pow2(6) && states.d < Pow2(8)
  }

  ghost predicate Writable(f: Frequencies, t: Lmd)
    requires f.L().Valid() && f.M().Valid() && f.D().Valid()
  {
    f.L().Has(t.literals) && f.M().Has(t.length) && f.D().Has(t.distance)
  }

  ghost predicate AllWritable(f: Frequencies, ts: seq<Lmd>)
    requires f.L().Valid() && f.M().Valid() && f.D().Valid()
  {
    forall i :: 0 <= i < |ts| ==> Writable(f, ts[i])
  }

  ghost function TripleBits(f: Frequencies, t: Lmd, next: LmdStates): seq<Bit>
    requires f.L().Valid() && f.M().Valid() && f.D().Valid() && Writable(f, t) && StatesInRange(next)
  {
    f.L().Written(t.literals, next.l) + f.M().Written(t.length, next.m) + f.D().Written(t.distance, next.d)
  }

  ghost function TripleStates(f: Frequencies, t: Lmd, next: LmdStates): (r: LmdStates)
    requires f.L().Valid() && f.M().Valid() && f.D().Valid() && Writable(f, t) && StatesInRange(next)
    ensures StatesInRange(r)
  {
    LmdStates(f.L().State(t.literals, next.l), f.M().State(t.length, next.m), f.D().State(t.distance, next.d))
  }

  datatype EncodedLmds = EncodedLmds(bits: seq<Bit>, states: LmdStates)

  ghost function EncodeLmds(f: Frequencies, ts: seq<Lmd>, ends: LmdStates): (r: EncodedLmds)
    requires f.L().Valid() && f.M().Valid() && f.D().Valid() && AllWritable(f, ts) && StatesInRange(ends)
    ensures StatesInRange(r.states)
    decreases |ts|
  {
    hide Writable, StatesInRange;
    if |ts| == 0 then EncodedLmds([], ends)
    else
      var rest := EncodeLmds(f, ts[1..], ends);
      EncodedLmds(TripleBits(f, ts[0], rest.states) + rest.bits, TripleStates(f, ts[0], rest.states))
  }

  /** The decoder's tables are those of the frequencies. */
  ghost predicate HasTables(d: Decoder, f: Frequencies)
    requires f.Valid()
  {
    && |d.literalStates| == 4
    && d.literalTable == Table(10, f.literals)
    && IsWidened(d.lValueTable, Table(6, f.l), L_VALUE_BITS, L_VALUE_BASE)
    && IsWidened(d.mValueTable, Table(6, f.m), M_VALUE_BITS, M_VALUE_BASE)
    && IsWidened(d.dValueTable, Table(8, f.d), D_VALUE_BITS, D_VALUE_BASE)
  }

  lemma TripleRoundTrip(d: Decoder, f: Frequencies, t: Lmd, next: LmdStates, s: seq<Bit>, pos: nat)
    requires f.Valid() && f.L().Valid() && f.M().Valid() && f.D().Valid() && HasTables(d, f)
    requires Writable(f, t) && StatesInRange(next) && Has(s, pos, TripleBits(f, t, next))
    ensures LmdAt(d, TripleStates(f, t, next), s, pos) == Some((t, next, pos + |TripleBits(f, t, next)|))
  {
    hide Has, Table, IsWidened, ValueAt, ValueCode.Written, ValueCode.State, ValueCode.Has, ValueCode.Valid, Pow2;
    var l, m, v := f.L().Written(t.literals, next.l), f.M().Written(t.length, next.m), f.D().Written(t.distance, next.d);
    HasConcat(s, pos, l + m, v);
    HasConcat(s, pos, l, m);
    ValueRoundTrip(f.L(), d.lValueTable, t.literals, next.l, s, pos);
    ValueRoundTrip(f.M(), d.mValueTable, t.length, next.m, s, pos + |l|);
    ValueRoundTrip(f.D(), d.dValueTable, t.distance, next.d, s, pos + |l| + |m|);
  }

  /** All triples are read back, and exactly their bits are used. */
  lemma {:induction false} LmdsRoundTrip(d: Decoder, f: Frequencies, ts: seq<Lmd>, ends: LmdStates, s: seq<Bit>, pos: nat)
    requires f.Valid() && f.L().Valid() && f.M().Valid() && f.D().Valid() && HasTables(d, f)
    requires AllWritable(f, ts) && StatesInRange(ends) && Has(s, pos, EncodeLmds(f, ts, ends).bits)
    ensures var e := EncodeLmds(f, ts, ends);
      LmdValues(d, e.states, s, pos, |ts|) == Some((ts, pos + |e.bits|))
    decreases |ts|
  {
    hide Has, Writable, StatesInRange, TripleBits, TripleStates, LmdAt, HasTables, ValueCode.Valid;
    if |ts| > 0 {
      var rest := EncodeLmds(f, ts[1..], ends);
      var bits := TripleBits(f, ts[0], rest.states);
      HasConcat(s, pos, bits, rest.bits);
      TripleRoundTrip(d, f, ts[0], rest.states, s, pos);
      LmdsRoundTrip(d, f, ts[1..], ends, s, pos + |bits|);
      assert [ts[0]] + ts[1..] == ts;
    }
  }

  /** Frequencies that leave no state without an entry. */
  ghost predicate Full(f: Frequencies) {
    f.Valid() && Sum(f.l) == Pow2(6) && Sum(f.m) == Pow2(6) && Sum(f.d) == Pow2(8)
  }

  /** A value is read at every state, and leads to a state again. */
  lemma ValueNeverStuck(c: ValueCode, values: seq<ValueEntry>, state: nat, s: seq<Bit>, pos: nat)
    requires c.Valid() && Sum(c.frequencies) == Pow2(c.k) && state < Pow2(c.k)
    requires IsWidened(values, Table(c.k, c.frequencies), c.bits, c.base)
    ensures var r := ValueAt(values, state, s, pos); r.Some? && r.value.state < Pow2(c.k)
  {
    hide Table, Sum, Pow2, MsbValue, Contiguous;
    EntriesStay(c.k, c.frequencies, state);
    WidenedSound(values, c.k, c.frequencies, c.bits, c.base);
    assert values[state] == Widen(Table(c.k, c.frequencies)[state], c.bits, c.base);
  }

  lemma TripleNeverStuck(d: Decoder, f: Frequencies, states: LmdStates, s: seq<Bit>, pos: nat)
    requires Full(f) && HasTables(d, f) && StatesInRange(states)
    ensures var r := LmdAt(d, states, s, pos); r.Some? && StatesInRange(r.value.1)
  {
    hide Table, Sum, Pow2, IsWidened, ValueAt, ValueCode.Valid;
    CodesValid(f);
    ValueNeverStuck(f.L(), d.lValueTable, states.l, s, pos);
    var l := ValueAt(d.lValueTable, states.l, s, pos).value;
    ValueNeverStuck(f.M(), d.mValueTable, states.m, s, l.end);
    var m := ValueAt(d.mValueTable, states.m, s, l.end).value;
    ValueNeverStuck(f.D(), d.dValueTable, states.d, s, m.end);
  }

  /** With full tables no stream of L, M and D values is refused, however the bits fall. */
  lemma {:induction false} LmdsNeverStuck(d: Decoder, f: Frequencies, states: LmdStates, s: seq<Bit>, pos: nat, count: nat)
    requires Full(f) && HasTables(d, f) && StatesInRange(states)
    ensures LmdValues(d, states, s, pos, count).Some?
    decreases count
  {
    hide LmdAt, Full, HasTables, StatesInRange;
    if count > 0 {
      TripleNeverStuck(d, f, states, s, pos);
      var r := LmdAt(d, states, s, pos).value;
      LmdsNeverStuck(d, f, r.1, s, r.2, count - 1);
    }
  }

  // ---- Backward streams ----

  /** Bytes that give the bits when they are read backwards from their end, behind some padding. */
  function Backwards(padding: seq<Bit>, bits: seq<Bit>): seq<Byte> {
    Reverse(Pack(MsbFirst, padding + bits))
  }

  lemma BackwardsRead(before: seq<Byte>, padding: seq<Bit>, bits: seq<Bit>, after: seq<Byte>)
    ensures var data := before + Backwards(padding, bits) + after;
      Has(BitsBefore(data, |before| + |Backwards(padding, bits)|), |padding|, bits)
  {
    hide Has, Pack, BitsOf;
    var packed := Pack(MsbFirst, padding + bits);
    var data := before + Reverse(packed) + after;
    var end := |before| + |packed|;
    assert data[..end] == before + Reverse(packed);
    var stream := Reverse(data[..end]);
    assert stream == packed + Reverse(before);
    PrefixHas(packed, Reverse(before), padding + bits);
    HasConcat(BitsOf(MsbFirst, stream), 0, padding, bits);
  }

  lemma PrefixHas(packed: seq<Byte>, rest: seq<Byte>, bits: seq<Bit>)
    requires packed == Pack(MsbFirst, bits)
    ensures Has(BitsOf(MsbFirst, packed + rest), 0, bits)
  {
    hide ToBits, Pack;
    PackedHas(MsbFirst, bits);
    var s := BitsOf(MsbFirst, packed);
    forall i | 0 <= i < |bits| ensures At(BitsOf(MsbFirst, packed + rest), 0 + i) == bits[i] {
      assert At(s, 0 + i) == bits[i];
      assert (packed + rest)[i / 8] == packed[i / 8];
    }
  }

  // ---- Blocks ----

  /** What an encoder chooses for a block: where the decoder's states end up and which bits it skips first. */
  datatype Endings = Endings(literals: seq<nat>, lmds: LmdStates, literalPadding: seq<Bit>, lmdPadding: seq<Bit>)

  ghost predicate Suits(f: Frequencies, literals: seq<Byte>, ts: seq<Lmd>, e: Endings) {
    && f.Valid() && f.L().Valid() && f.M().Valid() && f.D().Valid()
    && |literals| % 4 == 0 && |literals| <= 40064
    && Encodable(f.literals, literals) && InRange(10, e.literals) && |e.literals| == 4
    && AllWritable(f, ts) && StatesInRange(e.lmds)
    && |e.literalPadding| <= 32 && |e.lmdPadding| <= 32
  }

  datatype EncodedBlock = EncodedBlock(literals: Encoded, literalPadding: seq<Bit>, lmds: EncodedLmds, lmdPadding: seq<Bit>) {

    function LiteralData(): seq<Byte> { Backwards(literalPadding, literals.bits) }

    function LmdData(): seq<Byte> { Backwards(lmdPadding, lmds.bits) }

    function Data(): seq<Byte> { LiteralData() + LmdData() }
  }

  ghost function EncodeBlock(f: Frequencies, literals: seq<Byte>, ts: seq<Lmd>, e: Endings): EncodedBlock
    requires Suits(f, literals, ts, e)
  {
    EncodedBlock(Encode(10, f.literals, literals, e.literals), e.literalPadding, EncodeLmds(f, ts, e.lmds), e.lmdPadding)
  }

  /**
   * The header fields that go with an encoded block. The number of literals may leave out up to three that only
   * fill the last group of four.
   */
  ghost predicate Describes(d: Decoder, b: EncodedBlock, literals: seq<Byte>, ts: seq<Lmd>) {
    && |literals| == Rounded(d.numberOfLiterals) && d.numberOfLmdValues == |ts|
    && d.literalsDataSize == |b.LiteralData()| && d.lmdValuesDataSize == |b.LmdData()|
    && d.literalStates == b.literals.states
    && LmdStates(d.lValueState, d.mValueState, d.dValueState) == b.lmds.states
    && d.literalBits == 0 - |b.literalPadding| && d.lmdValuesBits == 0 - |b.lmdPadding|
  }

  /** A stream that holds the encoded literals gives them back. */
  lemma LiteralsRoundTrip(d: Decoder, f: Frequencies, literals: seq<Byte>, ts: seq<Lmd>, e: Endings, s: seq<Bit>)
    requires Suits(f, literals, ts, e) && HasTables(d, f) && Describes(d, EncodeBlock(f, literals, ts, e), literals, ts)
    requires Has(s, |e.literalPadding|, EncodeBlock(f, literals, ts, e).literals.bits)
    ensures Literals(d, s).Some? && Literals(d, s).value.0 == literals
  {
    hide Has, Backwards, Encode, EncodeLmds, Table, IsWidened, Symbols, AllWritable, StatesInRange, ValueCode.Valid,
         Fits, Encodable, InRange, Pow2, EncodedBlock.LiteralData, EncodedBlock.LmdData;
    RoundTrip(10, f.literals, literals, e.literals, s, |e.literalPadding|);
  }

  /** A stream that holds the encoded triples gives those back, and they are carried out. */
  lemma ReplayRoundTrip(d: Decoder, f: Frequencies, literals: seq<Byte>, ts: seq<Lmd>, e: Endings, s: seq<Bit>,
                        filled: seq<Byte>, buffer: seq<Byte>, start: nat)
    requires Suits(f, literals, ts, e) && HasTables(d, f) && Describes(d, EncodeBlock(f, literals, ts, e), literals, ts)
    requires Has(s, |e.lmdPadding|, EncodeBlock(f, literals, ts, e).lmds.bits)
    requires start <= |buffer| && |filled| == MAXIMUM_LITERALS
    ensures Replayed(d, s, filled, buffer, start) == Outcome(ExecuteAll(buffer, filled, Progress(buffer[..start], 0, 0), ts))
  {
    hide Has, Backwards, Encode, EncodeLmds, Table, IsWidened, Symbols, AllWritable, StatesInRange, ValueCode.Valid,
         Fits, Encodable, InRange, Pow2, Execute, ExecuteAll, LmdValues, HasTables, EncodedBlock.LiteralData,
         EncodedBlock.LmdData, Replayed, Outcome, Frequencies.L, Frequencies.M, Frequencies.D;
    LmdsRoundTrip(d, f, ts, e.lmds, s, |e.lmdPadding|);
    ReplayedTriples(d, s, filled, buffer, start, ts, |e.lmdPadding| + |EncodeLmds(f, ts, e.lmds).bits|);
  }

  lemma ReplayedTriples(d: Decoder, s: seq<Bit>, filled: seq<Byte>, buffer: seq<Byte>, start: nat, ts: seq<Lmd>, end: nat)
    requires start <= |buffer| && |filled| == MAXIMUM_LITERALS && SkipInBounds(d.lmdValuesBits)
    requires LmdValues(d, LmdStates(d.lValueState, d.mValueState, d.dValueState), s, -d.lmdValuesBits, d.numberOfLmdValues)
      == Some((ts, end))
    ensures Replayed(d, s, filled, buffer, start) == Outcome(ExecuteAll(buffer, filled, Progress(buffer[..start], 0, 0), ts))
  {
    hide LmdValues, ExecuteAll;
  }

  /** Both streams of an encoded block hold what was written. */
  lemma BlockStreams(b: EncodedBlock, before: seq<Byte>, after: seq<Byte>)
    ensures var data := before + b.Data() + after;
      var middle := |before| + |b.LiteralData()|;
      var end := middle + |b.LmdData()|;
      && end <= |data|
      && Has(BitsBefore(data, middle), |b.literalPadding|, b.literals.bits)
      && Has(BitsBefore(data, end), |b.lmdPadding|, b.lmds.bits)
  {
    hide Has, Backwards, BitsBefore;
    var first, second := b.LiteralData(), b.LmdData();
    var data := before + b.Data() + after;
    assert data == before + first + (second + after);
    assert data == (before + first) + second + after;
    BackwardsRead(before, b.literalPadding, b.literals.bits, second + after);
    BackwardsRead(before + first, b.lmdPadding, b.lmds.bits, after);
  }

  /**
   * A block that was encoded is decoded to exactly what its triples say, wherever it stands in the data and
   * whatever follows it.
   */
  lemma BlockRoundTrip(d: Decoder, f: Frequencies, literals: seq<Byte>, ts: seq<Lmd>, e: Endings,
                       before: seq<Byte>, after: seq<Byte>, buffer: seq<Byte>, start: nat)
    requires Suits(f, literals, ts, e) && HasTables(d, f) && Describes(d, EncodeBlock(f, literals, ts, e), literals, ts)
    requires start <= |buffer|
    ensures Block(d, before + EncodeBlock(f, literals, ts, e).Data() + after, |before|, buffer, start) ==
      Outcome(ExecuteAll(buffer, Filled(literals), Progress(buffer[..start], 0, 0), ts))
  {
    hide Encode, EncodeLmds, BitsBefore, HasTables, Replayed, ExecuteAll, Suits, EncodedBlock.LiteralData, EncodedBlock.LmdData,
         EncodedBlock.Data, Literals, Filled, Has;
    var b := EncodeBlock(f, literals, ts, e);
    var data := before + b.Data() + after;
    var middle := |before| + |b.LiteralData()|;
    BlockStreams(b, before, after);
    LiteralsRoundTrip(d, f, literals, ts, e, BitsBefore(data, middle));
    ReplayRoundTrip(d, f, literals, ts, e, BitsBefore(data, middle + |b.LmdData()|), Filled(literals), buffer, start);
  }

  // ---- Every string has a block ----

  /** The same frequency for every symbol. */
  function Uniform(symbols: nat, frequency: nat): (r: seq<nat>)
    ensures |r| == symbols && forall i :: 0 <= i < symbols ==> r[i] == frequency
  {
    seq<nat>(symbols, _ => frequency)
  }

  lemma {:induction false} UniformSum(symbols: nat, frequency: nat)
    ensures Sum(Uniform(symbols, frequency)) == symbols * frequency
  {
    if symbols > 0 {
      UniformSum(symbols - 1, frequency);
      assert Uniform(symbols, frequency)[..symbols - 1] == Uniform(symbols - 1, frequency);
    }
  }

  /** Frequencies with which every literal and every value can be written. */
  function EvenFrequencies(): Frequencies {
    Frequencies(Uniform(20, 3), Uniform(20, 3), Uniform(64, 4), Uniform(256, 4))
  }

  lemma EvenFrequenciesValid()
    ensures EvenFrequencies().Valid()
  {
    hide Sum;
    UniformSum(20, 3);
    UniformSum(64, 4);
    UniformSum(256, 4);
    Pow2Table();
    MorePowers();
  }

  /** n literals in runs of at most 315, and no copies. */
  function LiteralRuns(n: nat): (r: seq<Lmd>) {
    if n == 0 then [] else if n <= 315 then [Lmd(n, 0, 0)] else [Lmd(315, 0, 0)] + LiteralRuns(n - 315)
  }

  lemma {:induction false} RunsWritable(n: nat)
    requires EvenFrequencies().L().Valid() && EvenFrequencies().M().Valid() && EvenFrequencies().D().Valid()
    ensures AllWritable(EvenFrequencies(), LiteralRuns(n))
  {
    hide ValueCode.Valid, ValueCode.Symbol;
    if n > 315 { RunsWritable(n - 315); }
    EvenWritable(Lmd(if n > 315 then 315 else n, 0, 0));
  }

  /** Every value of the format has a symbol in use. */
  lemma EvenWritable(t: Lmd)
    requires EvenFrequencies().L().Valid() && EvenFrequencies().M().Valid() && EvenFrequencies().D().Valid()
    requires t.literals < 316 && t.length < 2360 && t.distance < 262140
    ensures Writable(EvenFrequencies(), t)
  {
    hide Fits, Contiguous, Bounded, SymbolOf, Pow2;
  }

  /** After each of the runs the low 32 bits of the room left are below 2 GiB. */
  predicate RoomFor(room: nat, n: nat)
    requires n <= room
    decreases n
  {
    n == 0 ||
    var m := if n > 315 then 315 else n;
    (room - m) % U32_SIZE < 0x8000_0000 && RoomFor(room - m, n - m)
  }

  /** That is so in every buffer below 2 GiB. */
  lemma {:induction false} SmallRoom(room: nat, n: nat)
    requires n <= room
    ensures room < 0x8000_0000 ==> RoomFor(room, n)
    decreases n
  {
    if n > 0 {
      var m := if n > 315 then 315 else n;
      SmallRoom(room - m, n - m);
    }
  }

  /** Carrying out the runs writes the literals, if the room allows it. */
  lemma {:induction false} RunsExecuted(buffer: seq<Byte>, literals: seq<Byte>, p: Progress, n: nat)
    requires |p.out| + n <= |buffer| && p.used + n <= |literals| == MAXIMUM_LITERALS && p.distance == 0
    ensures ExecuteAll(buffer, literals, p, LiteralRuns(n)) ==
      if RoomFor(|buffer| - |p.out|, n) then Some(Progress(p.out + literals[p.used..p.used + n], p.used + n, 0)) else None
    decreases n
  {
    hide Execute;
    var m := if n > 315 then 315 else n;
    RunExecuted(buffer, literals, p, m);
    if (|buffer| - |p.out| - m) % U32_SIZE >= 0x8000_0000 {
      assert n > 0 ==> LiteralRuns(n)[0] == Lmd(m, 0, 0);
      assert n == 0 ==> p.out + literals[p.used..p.used] == p.out;
      return;
    }
    var q := Progress(p.out + literals[p.used..p.used + m], p.used + m, 0);
    if n > 315 {
      RunsExecuted(buffer, literals, q, n - 315);
      assert LiteralRuns(n)[1..] == LiteralRuns(n - 315);
      assert literals[p.used..p.used + n] == literals[p.used..p.used + m] + literals[q.used..p.used + n];
      assert q.out + literals[q.used..p.used + n] == p.out + literals[p.used..p.used + n];
    } else if n > 0 {
      assert LiteralRuns(n)[1..] == [];
    } else {
      assert p.out + literals[p.used..p.used] == p.out;
    }
  }

  lemma RunExecuted(buffer: seq<Byte>, literals: seq<Byte>, p: Progress, n: nat)
    requires |p.out| + n <= |buffer| && p.used + n <= |literals| == MAXIMUM_LITERALS && p.distance == 0
    requires n <= 315
    ensures Execute(buffer, literals, p, Lmd(n, 0, 0)) ==
      if (|buffer| - |p.out| - n) % U32_SIZE < 0x8000_0000 then
        Some(Progress(p.out + literals[p.used..p.used + n], p.used + n, 0))
      else None
  {
    RoomIff(buffer, literals, p, Lmd(n, 0, 0));
    var out := p.out + literals[p.used..p.used + n];
    assert CopyBack(buffer, out, 0, 0) == out;
  }

  /** The entries of a value table. */
  ghost function WidenedTable(k: nat, frequencies: seq<nat>, valueBits: seq<nat>, valueBase: seq<nat>): (r: seq<ValueEntry>)
    requires Fits(k, frequencies) && |frequencies| == |valueBits| == |valueBase|
    ensures IsWidened(r, Table(k, frequencies), valueBits, valueBase)
  {
    hide Table;
    var table := Table(k, frequencies);
    assert forall i :: 0 <= i < |table| ==> table[i].symbol < |frequencies| by {
      forall i | 0 <= i < |table| ensures table[i].symbol < |frequencies| { EntriesStay(k, frequencies, i); }
    }
    seq(|table|, i requires 0 <= i < |table| => Widen(table[i], valueBits, valueBase))
  }

  /** The decoder that goes with an encoded block. */
  ghost function DecoderFor(f: Frequencies, b: EncodedBlock, literals: nat, lmds: nat): Decoder
    requires f.Valid() && f.L().Valid() && f.M().Valid() && f.D().Valid()
  {
    Decoder(literals, lmds, |b.LiteralData()|, |b.LmdData()|, b.literals.states, b.lmds.states.l, b.lmds.states.m,
            b.lmds.states.d, 0 - |b.literalPadding|, 0 - |b.lmdPadding|, Table(10, f.literals),
            WidenedTable(6, f.l, L_VALUE_BITS, L_VALUE_BASE), WidenedTable(6, f.m, M_VALUE_BITS, M_VALUE_BASE),
            WidenedTable(8, f.d, D_VALUE_BITS, D_VALUE_BASE))
  }

  function Padded(content: seq<Byte>): (r: seq<Byte>)
    ensures |r| == Rounded(|content|) && r[..|content|] == content
  {
    content + seq<Byte>(Rounded(|content|) - |content|, _ => 0)
  }

  lemma SuitableBlock(content: seq<Byte>) returns (e: Endings)
    requires |content| <= MAXIMUM_LITERALS
    ensures Suits(EvenFrequencies(), Padded(content), LiteralRuns(|content|), e)
  {
    hide ValueCode.Valid, Fits, AllWritable, Frequencies.Valid, Pow2, LiteralRuns, Frequencies.L, Frequencies.M, Frequencies.D;
    EvenFrequenciesValid();
    CodesValid(EvenFrequencies());
    RunsWritable(|content|);
    e := Endings([0, 0, 0, 0], LmdStates(0, 0, 0), [], []);
  }

  lemma DecoderDescribes(f: Frequencies, literals: seq<Byte>, ts: seq<Lmd>, e: Endings, count: nat)
    requires Suits(f, literals, ts, e) && |literals| == Rounded(count)
    ensures var b := EncodeBlock(f, literals, ts, e);
      var d := DecoderFor(f, b, count, |ts|);
      HasTables(d, f) && Describes(d, b, literals, ts)
  {
    hide ValueCode.Valid, Fits, AllWritable, Frequencies.L, Frequencies.M, Frequencies.D, Table, IsWidened, Encode, EncodeLmds,
         Encodable, EncodedBlock.LiteralData, EncodedBlock.LmdData, WidenedTable, Pow2;
  }

  /**
   * Every string that fits the literal buffer has a block, which can stand anywhere in the data. It gives the string
   * back behind whatever the output holds already, exactly when the room allows it, as in every buffer below 2 GiB.
   */
  lemma EveryStringDecodes(content: seq<Byte>, before: seq<Byte>, after: seq<Byte>, buffer: seq<Byte>, start: nat)
    returns (f: Frequencies, d: Decoder, block: seq<Byte>)
    requires |content| <= 40064 && start + |content| <= |buffer|
    ensures f.Valid() && HasTables(d, f)
    ensures Block(d, before + block + after, |before|, buffer, start) ==
      if RoomFor(|buffer| - start, |content|) then Some(buffer[..start] + content) else None
    ensures |buffer| < 0x8000_0000 ==> RoomFor(|buffer| - start, |content|)
  {
    hide Frequencies.Valid, HasTables, Block, ExecuteAll, EncodeBlock, LiteralRuns, EvenFrequencies, Describes,
         EncodedBlock.LiteralData, EncodedBlock.LmdData, DecoderFor, Frequencies.L, Frequencies.M, Frequencies.D, ValueCode.Valid,
         RoomFor;
    var literals, ts := Padded(content), LiteralRuns(|content|);
    f := EvenFrequencies();
    var e := SuitableBlock(content);
    var b := EncodeBlock(f, literals, ts, e);
    d := DecoderFor(f, b, |content|, |ts|);
    block := b.Data();
    DecoderDescribes(f, literals, ts, e, |content|);
    BlockRoundTrip(d, f, literals, ts, e, before, after, buffer, start);
    RunsExecuted(buffer, Filled(literals), Progress(buffer[..start], 0, 0), |content|);
    SmallRoom(|buffer| - start, |content|);
    assert Filled(literals)[0..|content|] == content;
  }
}
