/** Coding with finite states: several states take turns, and the encoder works backwards. */
module FseCoding {
  import opened Options
  import opened Words
  import opened Bits
  import opened FseTables

  // ---- Decoding ----

  /** The symbols read from pos on. The first state is used and its successor goes to the back of the queue. */
  function Symbols(table: seq<Entry>, states: seq<nat>, s: seq<Bit>, pos: nat, count: nat): (r: Option<(seq<Byte>, nat)>)
    requires |states| > 0
    ensures r.Some? ==> |r.value.0| == count
    decreases count
  {
    if count == 0 then Some(([], pos))
    else if states[0] >= |table| then None
    else
      var e := table[states[0]];
      After([e.symbol], Symbols(table, Turn(e, states, s, pos), s, pos + e.bits, count - 1))
  }

  /** The states after the first one was used. */
  function Turn(e: Entry, states: seq<nat>, s: seq<Bit>, pos: nat): (r: seq<nat>)
    requires |states| > 0
    ensures |r| == |states|
  {
    states[1..] + [e.delta + MsbValue(s, pos, e.bits)]
  }

  lemma SymbolsNext(table: seq<Entry>, states: seq<nat>, s: seq<Bit>, pos: nat, count: nat, done: seq<Byte>)
    requires |states| > 0 && count > 0
    ensures states[0] >= |table| ==> After(done, Symbols(table, states, s, pos, count)) == None
    ensures states[0] < |table| ==>
      var e := table[states[0]];
      After(done, Symbols(table, states, s, pos, count))
      == After(done + [e.symbol], Symbols(table, Turn(e, states, s, pos), s, pos + e.bits, count - 1))
  {
    hide Turn;
    if states[0] < |table| {
      var e := table[states[0]];
      AfterAfter(done, [e.symbol], Symbols(table, Turn(e, states, s, pos), s, pos + e.bits, count - 1));
    }
  }

  /** With frequencies that add up to the number of states no stream is refused. */
  lemma {:induction false} NeverStuck(k: nat, frequencies: seq<nat>, states: seq<nat>, s: seq<Bit>, pos: nat, count: nat)
    requires Fits(k, frequencies) && Sum(frequencies) == Pow2(k)
    requires |states| > 0 && forall i :: 0 <= i < |states| ==> states[i] < Pow2(k)
    ensures Symbols(Table(k, frequencies), states, s, pos, count).Some?
    decreases count
  {
    hide Table, Sum;
    if count > 0 {
      EntriesStay(k, frequencies, states[0]);
      var e := Table(k, frequencies)[states[0]];
      NeverStuck(k, frequencies, Turn(e, states, s, pos), s, pos + e.bits, count - 1);
    }
  }

  // ---- Encoding ----

  /** What an encoder leaves behind: the bits and the states a decoder starts from. */
  datatype Encoded = Encoded(bits: seq<Bit>, states: seq<nat>)

  ghost predicate Encodable(frequencies: seq<nat>, symbols: seq<Byte>) {
    forall i :: 0 <= i < |symbols| ==> symbols[i] < |frequencies| && frequencies[symbols[i]] > 0
  }

  ghost predicate InRange(k: nat, states: seq<nat>) {
    |states| > 0 && forall i :: 0 <= i < |states| ==> states[i] < Pow2(k)
  }

  /** Encodes the symbols from the last to the first, so that a decoder ends in the states `ends`. */
  ghost function Encode(k: nat, frequencies: seq<nat>, symbols: seq<Byte>, ends: seq<nat>): (r: Encoded)
    requires Fits(k, frequencies) && Encodable(frequencies, symbols) && InRange(k, ends)
    ensures InRange(k, r.states) && |r.states| == |ends|
    decreases |symbols|
  {
    if |symbols| == 0 then Encoded([], ends)
    else
      hide Table, LeadsTo;
      var rest := Encode(k, frequencies, symbols[1..], ends);
      var x := rest.states[|ends| - 1];
      var i := StateFor(k, frequencies, symbols[0], x);
      Encoded(Emitted(Table(k, frequencies)[i], x) + rest.bits, [i] + rest.states[..|ends| - 1])
  }

  /** The bits that lead from an entry to state x. */
  function Emitted(e: Entry, x: nat): (r: seq<Bit>)
    requires LeadsTo(e, x)
    ensures |r| == e.bits
  {
    MsbBits(x - e.delta, e.bits)
  }

  lemma EmittedRead(e: Entry, x: nat, s: seq<Bit>, pos: nat)
    requires LeadsTo(e, x) && Has(s, pos, Emitted(e, x))
    ensures e.delta + MsbValue(s, pos, e.bits) == x
  {
    ReadMsbExact(s, pos, x - e.delta, e.bits);
  }

  /** Decoding what was encoded gives the symbols back and uses exactly the bits written. */
  lemma {:induction false} RoundTrip(k: nat, frequencies: seq<nat>, symbols: seq<Byte>, ends: seq<nat>, s: seq<Bit>, pos: nat)
    requires Fits(k, frequencies) && Encodable(frequencies, symbols) && InRange(k, ends)
    requires Has(s, pos, Encode(k, frequencies, symbols, ends).bits)
    ensures var e := Encode(k, frequencies, symbols, ends);
      Symbols(Table(k, frequencies), e.states, s, pos, |symbols|) == Some((symbols, pos + |e.bits|))
    decreases |symbols|
  {
    hide Table, LeadsTo, Has, Emitted, MsbValue, Symbols, After;
    if |symbols| == 0 {
      NoSymbols(Table(k, frequencies), ends, s, pos, symbols);
    } else {
      var rest := Encode(k, frequencies, symbols[1..], ends);
      var x := rest.states[|ends| - 1];
      var i := StateFor(k, frequencies, symbols[0], x);
      var e := Table(k, frequencies)[i];
      HasConcat(s, pos, Emitted(e, x), rest.bits);
      EmittedRead(e, x, s, pos);
      assert Turn(e, [i] + rest.states[..|ends| - 1], s, pos) == rest.states;
      RoundTrip(k, frequencies, symbols[1..], ends, s, pos + e.bits);
      OneMoreSymbol(Table(k, frequencies), [i] + rest.states[..|ends| - 1], s, pos, symbols, pos + e.bits + |rest.bits|);
    }
  }

  lemma NoSymbols(table: seq<Entry>, states: seq<nat>, s: seq<Bit>, pos: nat, symbols: seq<Byte>)
    requires |states| > 0 && |symbols| == 0
    ensures Symbols(table, states, s, pos, |symbols|) == Some((symbols, pos))
  {
  }

  lemma OneMoreSymbol(table: seq<Entry>, states: seq<nat>, s: seq<Bit>, pos: nat, symbols: seq<Byte>, end: nat)
    requires |states| > 0 && |symbols| > 0 && states[0] < |table| && table[states[0]].symbol == symbols[0]
    requires var e := table[states[0]];
      Symbols(table, Turn(e, states, s, pos), s, pos + e.bits, |symbols| - 1) == Some((symbols[1..], end))
    ensures Symbols(table, states, s, pos, |symbols|) == Some((symbols, end))
  {
    hide Turn;
    assert [symbols[0]] + symbols[1..] == symbols;
  }
}
