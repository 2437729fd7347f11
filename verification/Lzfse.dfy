/** The LZFSE decoder: building its tables and decompressing a block. */
module Lzfse {
  import opened Options
  import opened Words
  import opened Bits
  import opened Lz77
  import opened LzfseBitstreams
  import opened Fse
  import opened FseTables
  import opened FseCoding
  import opened LzfseFormat
  import opened LzfseValues

  // ---- Decoder tables ----

  /** The entries of one symbol, appended in the order of their weights. */
  method AppendSymbol(k: nat, symbol: Byte, frequency: nat, table: seq<Entry>) returns (r: seq<Entry>)
    requires 1 <= frequency <= Pow2(k)
    ensures r == table + SymbolEntries(k, frequency, symbol)
  {
    hide NumberOfBits, BaseWeight, Shl, Pow2, SlotOf;
    r := table;
    for weight := 0 to frequency
      invariant |r| == |table| + weight && r[..|table|] == table
      invariant forall w :: 0 <= w < weight ==> r[|table| + w] == EntryOf(k, frequency, symbol, w)
    {
      SlotCases(k, frequency, weight);
      var numberOfBits := NumberOfBits(k, frequency);
      var baseWeight := BaseWeight(k, frequency);
      if weight < baseWeight {
        r := r + [Entry(numberOfBits, symbol, Shl(frequency + weight, numberOfBits) - Pow2(k))];
      } else {
        r := r + [Entry(numberOfBits - 1, symbol, Shl(weight - baseWeight, numberOfBits - 1))];
      }
    }
    assert r == r[..|table|] + r[|table|..];
    assert r[|table|..] == SymbolEntries(k, frequency, symbol);
  }

  lemma SlotCases(k: nat, f: nat, w: nat)
    requires w < f <= Pow2(k)
    ensures var n, base := NumberOfBits(k, f), BaseWeight(k, f);
      if w < base then Shl(f + w, n) >= Pow2(k) && SlotOf(k, f, w) == Slot(n, Shl(f + w, n) - Pow2(k))
      else n >= 1 && SlotOf(k, f, w) == Slot(n - 1, Shl(w - base, n - 1))
  {
    hide NumberOfBits, BaseWeight, Shl, Pow2;
    LowSlot(k, f, w);
    FullRange(k, f);
  }

  /** Building succeeds exactly when the symbols are bytes and the frequencies add up to at most the number of states. */
  method BuildDecoderTable(k: nat, numberOfSymbols: nat, frequencies: seq<nat>) returns (ok: bool, table: seq<Entry>)
    requires numberOfSymbols <= |frequencies|
    ensures ok <==> Fits(k, frequencies[..numberOfSymbols])
    ensures ok ==> table == Table(k, frequencies[..numberOfSymbols]) && Closed(table, k) && |table| <= Pow2(k)
  {
    hide Table, Sum, SymbolEntries, Closed;
    var numberOfStates := Pow2(k);
    table := [];
    if numberOfSymbols > 256 {
      return false, table;
    }
    EmptyTable(k);
    ghost var used := frequencies[..numberOfSymbols];
    assert frequencies[..0] == [];
    var sum: nat := 0;
    for symbol := 0 to numberOfSymbols
      invariant sum == Sum(frequencies[..symbol]) && Fits(k, frequencies[..symbol])
      invariant table == Table(k, frequencies[..symbol])
    {
      var frequency := frequencies[symbol];
      SumNext(frequencies, symbol);
      assert frequencies[..symbol + 1] == used[..symbol + 1];
      assert used[..numberOfSymbols] == used;
      if frequency == 0 {
        SymbolAdded(k, frequencies, symbol);
        continue;
      }
      sum := sum + frequency;
      if sum > numberOfStates {
        SumMonotone(used, symbol + 1, numberOfSymbols);
        return false, table;
      }
      SymbolAdded(k, frequencies, symbol);
      table := AppendSymbol(k, symbol, frequency, table);
    }
    TableClosed(k, used);
    ok := true;
  }

  lemma EmptyTable(k: nat)
    ensures Sum([]) == 0 && Fits(k, []) && Table(k, []) == []
  {
  }

  lemma SymbolAdded(k: nat, frequencies: seq<nat>, symbol: Byte)
    requires symbol < |frequencies| && Fits(k, frequencies[..symbol + 1])
    ensures Fits(k, frequencies[..symbol]) && frequencies[symbol] <= Pow2(k)
    ensures Table(k, frequencies[..symbol + 1]) ==
      Table(k, frequencies[..symbol]) + SymbolEntries(k, frequencies[symbol], symbol)
    ensures frequencies[symbol] == 0 ==> Table(k, frequencies[..symbol + 1]) == Table(k, frequencies[..symbol])
  {
    hide Table, Sum;
    var used := frequencies[..symbol + 1];
    TableNext(k, used, symbol);
    assert used[..symbol + 1] == used && used[..symbol] == frequencies[..symbol];
  }

  // ---- Value tables ----

  method AppendValueSymbol(k: nat, symbol: Byte, frequency: nat, valueBits: seq<nat>, valueBase: seq<nat>, values: seq<ValueEntry>,
                           ghost table: seq<Entry>)
    returns (r: seq<ValueEntry>)
    requires 1 <= frequency <= Pow2(k) && symbol < |valueBits| && symbol < |valueBase|
    requires IsWidened(values, table, valueBits, valueBase)
    ensures IsWidened(r, table + SymbolEntries(k, frequency, symbol), valueBits, valueBase)
  {
    hide NumberOfBits, BaseWeight, Shl, Pow2, SlotOf;
    r := values;
    ghost var all := table + SymbolEntries(k, frequency, symbol);
    for weight := 0 to frequency
      invariant |r| == |table| + weight
      invariant forall i :: 0 <= i < |table| + weight ==>
        all[i].symbol < |valueBits| && all[i].symbol < |valueBase| && r[i] == Widen(all[i], valueBits, valueBase)
    {
      SlotCases(k, frequency, weight);
      assert all[|table| + weight] == EntryOf(k, frequency, symbol, weight);
      var numberOfBits := NumberOfBits(k, frequency);
      var baseWeight := BaseWeight(k, frequency);
      var extra, base := valueBits[symbol], valueBase[symbol];
      if weight < baseWeight {
        r := r + [ValueEntry(numberOfBits + extra, extra, Shl(frequency + weight, numberOfBits) - Pow2(k), base, Pow2(extra) - 1)];
      } else {
        r := r + [ValueEntry(numberOfBits + extra - 1, extra, Shl(weight - baseWeight, numberOfBits - 1), base, Pow2(extra) - 1)];
      }
    }
  }

  method BuildValueDecoderTable(k: nat, numberOfSymbols: nat, frequencies: seq<nat>, valueBits: seq<nat>, valueBase: seq<nat>)
    returns (ok: bool, values: seq<ValueEntry>)
    requires numberOfSymbols <= |frequencies| && numberOfSymbols <= |valueBits| && numberOfSymbols <= |valueBase|
    ensures ok <==> Fits(k, frequencies[..numberOfSymbols])
    ensures ok ==> IsWidened(values, Table(k, frequencies[..numberOfSymbols]), valueBits, valueBase)
  {
    hide Table, Sum, SymbolEntries, Widen, IsWidened;
    var numberOfStates := Pow2(k);
    values := [];
    if numberOfSymbols > 256 {
      return false, values;
    }
    EmptyTable(k);
    ghost var used := frequencies[..numberOfSymbols];
    assert frequencies[..0] == [];
    EmptyWidened(valueBits, valueBase);
    var sum: nat := 0;
    for symbol := 0 to numberOfSymbols
      invariant sum == Sum(frequencies[..symbol]) && Fits(k, frequencies[..symbol])
      invariant IsWidened(values, Table(k, frequencies[..symbol]), valueBits, valueBase)
    {
      var frequency := frequencies[symbol];
      SumNext(frequencies, symbol);
      assert frequencies[..symbol + 1] == used[..symbol + 1];
      assert used[..numberOfSymbols] == used;
      if frequency == 0 {
        SymbolAdded(k, frequencies, symbol);
        continue;
      }
      sum := sum + frequency;
      if sum > numberOfStates {
        SumMonotone(used, symbol + 1, numberOfSymbols);
        return false, values;
      }
      SymbolAdded(k, frequencies, symbol);
      values := AppendValueSymbol(k, symbol, frequency, valueBits, valueBase, values, Table(k, frequencies[..symbol]));
    }
    ok := true;
  }

  lemma EmptyWidened(valueBits: seq<nat>, valueBase: seq<nat>)
    ensures IsWidened([], [], valueBits, valueBase)
  {
  }

  /** The four tables of a block, from the frequencies of its header. */
  method BuildTables(d: Decoder, frequencies: seq<nat>) returns (ok: bool, r: Decoder)
    requires |frequencies| == 360 && |d.literalStates| == 4
    ensures ok <==>
      && Fits(6, frequencies[0..20]) && Fits(6, frequencies[20..40])
      && Fits(8, frequencies[40..104]) && Fits(10, frequencies[104..360])
    ensures ok ==> Built(r)
    ensures ok ==> IsWidened(r.lValueTable, Table(6, frequencies[0..20]), L_VALUE_BITS, L_VALUE_BASE)
    ensures ok ==> IsWidened(r.mValueTable, Table(6, frequencies[20..40]), M_VALUE_BITS, M_VALUE_BASE)
    ensures ok ==> IsWidened(r.dValueTable, Table(8, frequencies[40..104]), D_VALUE_BITS, D_VALUE_BASE)
    ensures ok ==> r == d.(literalTable := Table(10, frequencies[104..360]), lValueTable := r.lValueTable,
                           mValueTable := r.mValueTable, dValueTable := r.dValueTable)
  {
    hide Table, Fits, IsWidened, Closed, SoundTable, Pow2;
    TableSizes();
    ValueBitsBounded();
    r := d;
    var lValues, mValues, dValues, literals;
    assert frequencies[0..20][..20] == frequencies[0..20];
    ok, lValues := BuildValueDecoderTable(6, 20, frequencies[0..20], L_VALUE_BITS, L_VALUE_BASE);
    if !ok {
      return;
    }
    assert frequencies[20..40][..20] == frequencies[20..40];
    ok, mValues := BuildValueDecoderTable(6, 20, frequencies[20..40], M_VALUE_BITS, M_VALUE_BASE);
    if !ok {
      return;
    }
    assert frequencies[40..104][..64] == frequencies[40..104];
    ok, dValues := BuildValueDecoderTable(8, 64, frequencies[40..104], D_VALUE_BITS, D_VALUE_BASE);
    if !ok {
      return;
    }
    assert frequencies[104..360][..256] == frequencies[104..360];
    ok, literals := BuildDecoderTable(10, 256, frequencies[104..360]);
    if !ok {
      return;
    }
    WidenedSound(lValues, 6, frequencies[0..20], L_VALUE_BITS, L_VALUE_BASE);
    WidenedSound(mValues, 6, frequencies[20..40], M_VALUE_BITS, M_VALUE_BASE);
    WidenedSound(dValues, 8, frequencies[40..104], D_VALUE_BITS, D_VALUE_BASE);
    r := d.(literalTable := literals, lValueTable := lValues, mValueTable := mValues, dValueTable := dValues);
  }

  lemma TableSizes()
    ensures |L_VALUE_BITS| == |L_VALUE_BASE| == |M_VALUE_BITS| == |M_VALUE_BASE| == 20
    ensures |D_VALUE_BITS| == |D_VALUE_BASE| == 64
    ensures Pow2(6) == 64 && Pow2(8) == 256 && Pow2(10) == 1024
  {
    Pow2Table();
    MorePowers();
  }

  // ---- Literals ----

  /** One literal: the symbol of a state and the state that follows. */
  method DecodeLiteral(table: seq<Entry>, state: nat, bitstream: LzfseBitstream) returns (ok: bool, symbol: Byte, next: nat)
    requires |table| <= LITERAL_STATES && Closed(table, 10) && bitstream.Valid()
    modifies bitstream
    ensures bitstream.Valid() && (ok <==> state < |table|)
    ensures ok ==>
      var e := table[state];
      && symbol == e.symbol && next == e.delta + MsbValue(bitstream.Source(), old(bitstream.position), e.bits)
      && bitstream.position == old(bitstream.position) + e.bits
  {
    hide LzfseBitstream.Valid, LzfseBitstream.Source, MsbValue, Pow2;
    ok, symbol, next := false, 0, 0;
    if state > LITERAL_STATES || state >= |table| {
      return;
    }
    var entry := table[state];
    var value := bitstream.GetValue(entry.bits);
    ok, symbol, next := true, entry.symbol, entry.delta + value;
  }

  /** One literal of the specification, with state j updated in place. */
  lemma LiteralStep(table: seq<Entry>, states: seq<nat>, j: nat, s: seq<Bit>, pos: nat, count: nat, done: seq<Byte>)
    requires j < |states| && count > 0
    ensures var all := After(done, Symbols(table, states[j..] + states[..j], s, pos, count));
      if states[j] >= |table| then all == None
      else
        var e := table[states[j]];
        var next := states[j := e.delta + MsbValue(s, pos, e.bits)];
        all == After(done + [e.symbol], Symbols(table, next[j + 1..] + next[..j + 1], s, pos + e.bits, count - 1))
  {
    hide Symbols, MsbValue, Turn, After;
    SymbolsNext(table, states[j..] + states[..j], s, pos, count, done);
    if states[j] < |table| {
      TurnInPlace(table[states[j]], states, j, s, pos);
    }
  }

  /** The literals of a block, decoded with four states in turn. */
  method ReadLiteralValues(d: Decoder, bitstream: LzfseBitstream, literalValues: array<Byte>) returns (ok: bool)
    requires Built(d) && bitstream.Valid() && bitstream.position == 0 && literalValues.Length == MAXIMUM_LITERALS
    modifies bitstream, literalValues
    ensures bitstream.Valid()
    ensures var spec := Literals(d, bitstream.Source());
      && ok == spec.Some?
      && (ok ==> Written(literalValues, spec.value.0))
  {
    hide LzfseBitstream.Valid, LzfseBitstream.Source, MsbValue, Symbols, Closed, SoundTable, After;
    if d.numberOfLiterals > MAXIMUM_LITERALS || d.literalBits < -32 || d.literalBits > 0 {
      return false;
    }
    ghost var s := bitstream.Source();
    ghost var count := Rounded(d.numberOfLiterals);
    ghost var all := Symbols(d.literalTable, d.literalStates, s, -d.literalBits, count);
    ghost var done: seq<Byte> := [];
    var states: seq<nat> := d.literalStates;
    var skipped := bitstream.GetValue(-d.literalBits);
    var index: nat := 0;
    AfterNothing(all);
    while index < d.numberOfLiterals
      invariant bitstream.Valid() && bitstream.Source() == s && |states| == 4
      invariant index % 4 == 0 && index <= count && |done| == index && Written(literalValues, done)
      invariant all == After(done, Symbols(d.literalTable, states, s, bitstream.position, count - index))
    {
      assert states[0..] + states[..0] == states;
      for j := 0 to 4
        invariant bitstream.Valid() && bitstream.Source() == s && |states| == 4
        invariant |done| == index + j && Written(literalValues, done)
        invariant all == After(done, Symbols(d.literalTable, states[j..] + states[..j], s, bitstream.position, count - index - j))
      {
        LiteralStep(d.literalTable, states, j, s, bitstream.position, count - index - j, done);
        var decoded, symbol, next := DecodeLiteral(d.literalTable, states[j], bitstream);
        if !decoded {
          return false;
        }
        literalValues[index + j] := symbol;
        states := states[j := next];
        done := done + [symbol];
      }
      assert states[4..] + states[..4] == states;
      index := index + 4;
    }
    EndOfLiterals(d.literalTable, states, s, bitstream.position, done);
    ok := true;
  }

  lemma EndOfLiterals(table: seq<Entry>, states: seq<nat>, s: seq<Bit>, pos: nat, done: seq<Byte>)
    requires |states| > 0
    ensures After(done, Symbols(table, states, s, pos, 0)) == Some((done, pos))
  {
    AfterEnd(done, pos);
  }

  /** Updating state j in place is taking a turn in the queue that starts at j. */
  lemma TurnInPlace(e: Entry, states: seq<nat>, j: nat, s: seq<Bit>, pos: nat)
    requires j < |states|
    ensures var next := states[j := e.delta + MsbValue(s, pos, e.bits)];
      Turn(e, states[j..] + states[..j], s, pos) == next[j + 1..] + next[..j + 1]
  {
  }

  // ---- L, M and D values ----

  /** Reading state bits and value bits at once and taking them apart. */
  lemma TakenApart(e: ValueEntry, s: seq<Bit>, pos: nat)
    requires Sound(e)
    ensures var v, stateBits := MsbValue(s, pos, e.numberOfBits), e.numberOfBits - e.valueBits;
      && BitAnd(v, e.valueBitmask) == MsbValue(s, pos + stateBits, e.valueBits)
      && Shr(v, e.valueBits) == MsbValue(s, pos, stateBits)
  {
    hide MsbValue, BitAnd, Shr, Low, Shl, Pow2;
    var v, stateBits := MsbValue(s, pos, e.numberOfBits), e.numberOfBits - e.valueBits;
    MsbSplit(s, pos, stateBits, e.valueBits);
    Split(MsbValue(s, pos, stateBits), MsbValue(s, pos + stateBits, e.valueBits), e.valueBits);
    AndMask(v, e.valueBits);
  }

  method ReadValue(table: seq<ValueEntry>, numberOfStates: nat, state: nat, bitstream: LzfseBitstream)
    returns (ok: bool, value: nat, next: nat)
    requires SoundTable(table, numberOfStates) && bitstream.Valid()
    modifies bitstream
    ensures bitstream.Valid()
    ensures var spec := ValueAt(table, state, bitstream.Source(), old(bitstream.position));
      && ok == spec.Some?
      && (ok ==> spec.value == Reading(value, next, bitstream.position))
  {
    hide LzfseBitstream.Valid, LzfseBitstream.Source, MsbValue, BitAnd, Shr;
    ok, value, next := false, 0, 0;
    if state > numberOfStates || state >= |table| {
      return;
    }
    var entry := table[state];
    TakenApart(entry, bitstream.Source(), bitstream.position);
    var bits := bitstream.GetValue(entry.numberOfBits);
    value := entry.valueBase + BitAnd(bits, entry.valueBitmask);
    next := entry.delta + Shr(bits, entry.valueBits);
    ok := true;
  }

  method ReadLmd(d: Decoder, states: LmdStates, bitstream: LzfseBitstream) returns (ok: bool, lmd: Lmd, next: LmdStates)
    requires Built(d) && bitstream.Valid()
    modifies bitstream
    ensures bitstream.Valid()
    ensures var spec := LmdAt(d, states, bitstream.Source(), old(bitstream.position));
      && ok == spec.Some?
      && (ok ==> spec.value == (lmd, next, bitstream.position))
  {
    hide LzfseBitstream.Valid, LzfseBitstream.Source, ValueAt, SoundTable;
    lmd, next := Lmd(0, 0, 0), states;
    var l, m, v: nat;
    var lState, mState, dState: nat;
    ok, l, lState := ReadValue(d.lValueTable, L_STATES, states.l, bitstream);
    if !ok {
      return;
    }
    ok, m, mState := ReadValue(d.mValueTable, M_STATES, states.m, bitstream);
    if !ok {
      return;
    }
    ok, v, dState := ReadValue(d.dValueTable, D_STATES, states.d, bitstream);
    lmd, next := Lmd(l, m, v), LmdStates(lState, mState, dState);
  }

  // ---- Output ----

  /** Copies literals behind the output so far. */
  method AppendLiterals(output: array<Byte>, offset: nat, literals: array<Byte>, from: nat, count: nat, ghost out: seq<Byte>)
    requires output != literals && |out| == offset && offset + count <= output.Length && from + count <= literals.Length
    requires forall i :: 0 <= i < |out| ==> output[i] == out[i]
    modifies output
    ensures Written(output, out + literals[from..from + count])
  {
    for k := 0 to count
      invariant forall i :: 0 <= i < offset ==> output[i] == old(output[i])
      invariant forall i :: offset <= i < offset + k ==> output[i] == literals[from + (i - offset)]
      invariant forall i :: offset + k <= i < output.Length ==> output[i] == old(output[i])
    {
      output[offset + k] := literals[from + k];
    }
  }

  /** The copy loop with any distance; with distance 0 it changes nothing. */
  method AppendCopy(output: array<Byte>, offset: nat, distance: nat, length: nat, ghost out: seq<Byte>)
    requires distance <= offset == |out| && offset + length <= output.Length
    requires forall i :: 0 <= i < |out| ==> output[i] == out[i]
    modifies output
    ensures Written(output, CopyBack(old(output[..]), out, distance, length))
  {
    if distance == 0 {
      ghost var r := CopyBack(output[..], out, distance, length);
      for k := 0 to length
        invariant forall i :: 0 <= i < output.Length ==> output[i] == old(output[i])
      {
        output[offset + k] := output[offset + k];
      }
      assert forall i :: |out| <= i < |r| ==> r[i] == old(output[..])[i];
    } else {
      AppendMatch(output, offset, distance, length, out);
    }
  }

  /** One triple carried out on the output buffer. */
  method ExecuteInPlace(output: array<Byte>, literals: array<Byte>, offset: nat, used: nat, activeDistance: nat, lmd: Lmd,
                        ghost buffer: seq<Byte>, ghost p: Progress)
    returns (ok: bool, endOffset: nat, distance: nat)
    requires output != literals && literals.Length == MAXIMUM_LITERALS && used <= MAXIMUM_LITERALS
    requires |buffer| == output.Length && |p.out| == offset <= output.Length && p.used == used && p.distance == activeDistance
    requires forall i :: 0 <= i < offset ==> output[i] == p.out[i]
    requires forall i :: offset <= i < output.Length ==> output[i] == buffer[i]
    modifies output
    ensures var spec := Execute(buffer, literals[..], p, lmd);
      && ok == spec.Some?
      && (ok ==> spec.value.used == used + lmd.literals && spec.value.distance == distance && |spec.value.out| == endOffset)
      && (ok ==> Written(output, spec.value.out))
  {
    hide CopyMatch, AsI32;
    ok, endOffset, distance := false, offset, activeDistance;
    var remaining := output.Length - offset;
    if lmd.distance != 0 {
      distance := lmd.distance;
    }
    var maximum := if remaining < MAXIMUM_LITERALS - 1 then remaining else MAXIMUM_LITERALS - 1;
    if lmd.literals > maximum || used > MAXIMUM_LITERALS - lmd.literals {
      return;
    }
    ghost var out := p.out + literals[used..used + lmd.literals];
    assert literals[..][used..used + lmd.literals] == literals[used..used + lmd.literals];
    AppendLiterals(output, offset, literals, used, lmd.literals, p.out);
    endOffset := offset + lmd.literals;
    remaining := remaining - lmd.literals;
    if lmd.length > AsI32(remaining) || distance > endOffset {
      return;
    }
    SameCopy(buffer, output[..], out, distance, lmd.length);
    AppendCopy(output, endOffset, distance, lmd.length, out);
    endOffset := endOffset + lmd.length;
    ok := true;
  }

  /** A copy only looks at the buffer behind the output. */
  lemma SameCopy(a: seq<Byte>, b: seq<Byte>, out: seq<Byte>, distance: nat, length: nat)
    requires distance <= |out| && |out| + length <= |a| == |b|
    requires forall i :: |out| <= i < |a| ==> a[i] == b[i]
    ensures CopyBack(a, out, distance, length) == CopyBack(b, out, distance, length)
  {
    assert a[|out|..|out| + length] == b[|out|..|out| + length];
  }

  method ReadLmdValues(d: Decoder, bitstream: LzfseBitstream, literalValues: array<Byte>, output: array<Byte>, offset: nat)
    returns (ok: bool, endOffset: nat)
    requires Built(d) && bitstream.Valid() && bitstream.position == 0
    requires literalValues.Length == MAXIMUM_LITERALS && output != literalValues && offset <= output.Length
    modifies bitstream, output
    ensures bitstream.Valid()
    ensures var spec := Replayed(d, bitstream.Source(), literalValues[..], old(output[..]), offset);
      && ok == spec.Some?
      && (ok ==> endOffset == |spec.value| && Written(output, spec.value))
  {
    hide LzfseBitstream.Valid, LzfseBitstream.Source, MsbValue, LmdAt, LmdValues, Execute, ExecuteAll, Built;
    ok, endOffset := false, offset;
    if d.lmdValuesBits < -32 || d.lmdValuesBits > 0 {
      return;
    }
    ghost var s, buffer, literals := bitstream.Source(), output[..], literalValues[..];
    var states := LmdStates(d.lValueState, d.mValueState, d.dValueState);
    ghost var all := LmdValues(d, states, s, -d.lmdValuesBits, d.numberOfLmdValues);
    ghost var start := Progress(buffer[..offset], 0, 0);
    ghost var p, done: seq<Lmd> := start, [];
    var skipped := bitstream.GetValue(-d.lmdValuesBits);
    var distance: nat, used: nat := 0, 0;
    AfterNothing(all);
    NothingExecuted(buffer, literals, start);
    for i := 0 to d.numberOfLmdValues
      invariant bitstream.Valid() && bitstream.Source() == s && literalValues[..] == literals
      invariant p.distance == distance && p.used == used <= MAXIMUM_LITERALS && |p.out| == endOffset <= |buffer|
      invariant Written(output, p.out)
      invariant all == After(done, LmdValues(d, states, s, bitstream.position, d.numberOfLmdValues - i))
      invariant ExecuteAll(buffer, literals, start, done) == Some(p)
    {
      LmdValuesNext(d, states, s, bitstream.position, d.numberOfLmdValues - i, done);
      var read, lmd, next := ReadLmd(d, states, bitstream);
      if !read {
        return;
      }
      states := next;
      ghost var rest := LmdValues(d, states, s, bitstream.position, d.numberOfLmdValues - i - 1);
      ExecuteNext(buffer, literals, start, p, done, lmd, rest);
      var executed;
      executed, endOffset, distance := ExecuteInPlace(output, literalValues, endOffset, used, distance, lmd, buffer, p);
      if !executed {
        return;
      }
      p := Execute(buffer, literals, p, lmd).value;
      used := used + lmd.literals;
      done := done + [lmd];
    }
    EndOfLmdValues(d, states, s, bitstream.position, done);
    ok := true;
  }

  lemma EndOfLmdValues(d: Decoder, states: LmdStates, s: seq<Bit>, pos: nat, done: seq<Lmd>)
    ensures After(done, LmdValues(d, states, s, pos, 0)) == Some((done, pos))
  {
    AfterEnd(done, pos);
  }

  lemma NothingExecuted(buffer: seq<Byte>, literals: seq<Byte>, p: Progress)
    requires |p.out| <= |buffer| && p.used <= |literals| == MAXIMUM_LITERALS
    ensures ExecuteAll(buffer, literals, p, []) == Some(p)
  {
  }

  /** One more triple; when it fails, so does every continuation. */
  lemma ExecuteNext(buffer: seq<Byte>, literals: seq<Byte>, start: Progress, p: Progress, done: seq<Lmd>, lmd: Lmd,
                    rest: Option<(seq<Lmd>, nat)>)
    requires |start.out| <= |buffer| && start.used <= |literals| == MAXIMUM_LITERALS
    requires ExecuteAll(buffer, literals, start, done) == Some(p)
    ensures ExecuteAll(buffer, literals, start, done + [lmd]) == Execute(buffer, literals, p, lmd)
    ensures After(done + [lmd], rest).Some? && Execute(buffer, literals, p, lmd).None? ==>
      ExecuteAll(buffer, literals, start, After(done + [lmd], rest).value.0).None?
  {
    hide Execute, ExecuteAll;
    ExecuteAppend(buffer, literals, start, done, [lmd]);
    SingleExecuted(buffer, literals, p, lmd);
    if rest.Some? {
      ExecuteAppend(buffer, literals, start, done + [lmd], rest.value.0);
    }
  }

  lemma SingleExecuted(buffer: seq<Byte>, literals: seq<Byte>, p: Progress, lmd: Lmd)
    requires |p.out| <= |buffer| && p.used <= |literals| == MAXIMUM_LITERALS
    ensures ExecuteAll(buffer, literals, p, [lmd]) == Execute(buffer, literals, p, lmd)
  {
    hide Execute;
    assert [lmd][1..] == [];
  }

  // ---- Blocks ----

  /** Decompresses the block at an offset, behind the bytes the output buffer holds already. */
  method DecompressBlock(d: Decoder, data: seq<Byte>, offset: nat, output: array<Byte>, start: nat)
    returns (ok: bool, dataOffset: nat, endOffset: nat)
    requires Built(d) && offset <= |data| && start <= output.Length
    modifies output
    ensures var spec := Block(d, data, offset, old(output[..]), start);
      && ok == spec.Some?
      && (ok ==> dataOffset == offset + d.literalsDataSize + d.lmdValuesDataSize)
      && (ok ==> endOffset == |spec.value| && Written(output, spec.value))
  {
    hide LzfseBitstream.Valid, BitsOf, Literals, Replayed;
    ok, dataOffset, endOffset := false, offset, start;
    if d.literalsDataSize > |data| - offset {
      return;
    }
    var literalsEnd := offset + d.literalsDataSize;
    var bitstream := new LzfseBitstream(data, literalsEnd);
    var literalValues := new Byte[MAXIMUM_LITERALS](_ => 0);
    ok := ReadLiteralValues(d, bitstream, literalValues);
    if !ok {
      return;
    }
    ghost var literals := Literals(d, bitstream.Source()).value.0;
    assert literalValues[..] == Filled(literals);
    if d.lmdValuesDataSize > |data| - literalsEnd {
      ok := false;
      return;
    }
    dataOffset := literalsEnd + d.lmdValuesDataSize;
    bitstream := new LzfseBitstream(data, dataOffset);
    ok, endOffset := ReadLmdValues(d, bitstream, literalValues, output, start);
  }
}
