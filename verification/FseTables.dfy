/** The decoder tables of finite state entropy coding and why every run through them can be undone. */
module FseTables {
  import opened Words
  import opened Fse

  /** One state: the symbol it stands for, and how the next state is found. */
  datatype Entry = Entry(bits: nat, symbol: Byte, delta: nat)

  function Sum(frequencies: seq<nat>): nat {
    if |frequencies| == 0 then 0
    else Sum(frequencies[..|frequencies| - 1]) + frequencies[|frequencies| - 1]
  }

  lemma SumNext(frequencies: seq<nat>, symbol: nat)
    requires symbol < |frequencies|
    ensures Sum(frequencies[..symbol + 1]) == Sum(frequencies[..symbol]) + frequencies[symbol]
  {
    assert frequencies[..symbol + 1][..symbol] == frequencies[..symbol];
  }

  lemma {:induction false} SumMonotone(frequencies: seq<nat>, m: nat, n: nat)
    requires m <= n <= |frequencies|
    ensures Sum(frequencies[..m]) <= Sum(frequencies[..n])
    decreases n
  {
    if m < n {
      SumMonotone(frequencies, m, n - 1);
      SumNext(frequencies, n - 1);
    }
  }

  /** What a list of frequencies must satisfy for 2^k states: symbols are bytes, and there is a state for each occurrence. */
  ghost predicate Fits(k: nat, frequencies: seq<nat>) {
    |frequencies| <= 256 && Sum(frequencies) <= Pow2(k)
  }

  lemma FitsAt(k: nat, frequencies: seq<nat>, symbol: nat)
    requires Fits(k, frequencies) && symbol < |frequencies|
    ensures Sum(frequencies[..symbol]) + frequencies[symbol] <= Sum(frequencies) <= Pow2(k)
    ensures Fits(k, frequencies[..symbol])
  {
    SumNext(frequencies, symbol);
    SumMonotone(frequencies, symbol + 1, |frequencies|);
    assert frequencies[..|frequencies|] == frequencies;
  }

  /** The entry of a symbol of frequency f at one of its weights. */
  function EntryOf(k: nat, f: nat, symbol: Byte, w: nat): Entry
    requires w < f <= Pow2(k)
  {
    var slot := SlotOf(k, f, w);
    Entry(slot.bits, symbol, slot.delta)
  }

  function SymbolEntries(k: nat, f: nat, symbol: Byte): (r: seq<Entry>)
    requires f <= Pow2(k)
    ensures |r| == f
  {
    seq<Entry>(f, w requires 0 <= w < f => EntryOf(k, f, symbol, w))
  }

  /** The entries of all symbols in order. */
  ghost function Table(k: nat, frequencies: seq<nat>): (r: seq<Entry>)
    requires Fits(k, frequencies)
    ensures |r| == Sum(frequencies)
    decreases |frequencies|
  {
    if |frequencies| == 0 then []
    else
      var symbol := |frequencies| - 1;
      FitsAt(k, frequencies, symbol);
      Table(k, frequencies[..symbol]) + SymbolEntries(k, frequencies[symbol], symbol)
  }

  lemma TableNext(k: nat, frequencies: seq<nat>, symbol: nat)
    requires Fits(k, frequencies) && symbol < |frequencies|
    ensures Fits(k, frequencies[..symbol]) && Fits(k, frequencies[..symbol + 1])
    ensures frequencies[symbol] <= Pow2(k)
    ensures Table(k, frequencies[..symbol + 1]) ==
      Table(k, frequencies[..symbol]) + SymbolEntries(k, frequencies[symbol], symbol)
  {
    hide SymbolEntries;
    FitsAt(k, frequencies, symbol);
    SumNext(frequencies, symbol);
    assert frequencies[..symbol + 1][..symbol] == frequencies[..symbol];
  }

  /** The entries of a symbol start at the sum of the frequencies before it. */
  lemma {:induction false} TableAt(k: nat, frequencies: seq<nat>, symbol: nat, w: nat)
    requires Fits(k, frequencies) && symbol < |frequencies| && w < frequencies[symbol]
    ensures frequencies[symbol] <= Pow2(k)
    ensures Sum(frequencies[..symbol]) + w < |Table(k, frequencies)|
    ensures Table(k, frequencies)[Sum(frequencies[..symbol]) + w] == EntryOf(k, frequencies[symbol], symbol, w)
    decreases |frequencies|
  {
    hide EntryOf, Sum;
    FitsAt(k, frequencies, symbol);
    var last := |frequencies| - 1;
    FitsAt(k, frequencies, last);
    if symbol < last {
      TableAt(k, frequencies[..last], symbol, w);
      assert frequencies[..last][..symbol] == frequencies[..symbol];
    }
  }

  /** Every state belongs to one symbol and one of its weights. */
  lemma {:induction false} StateOwner(k: nat, frequencies: seq<nat>, i: nat) returns (symbol: nat, w: nat)
    requires Fits(k, frequencies) && i < |Table(k, frequencies)|
    ensures symbol < |frequencies| && w < frequencies[symbol] && i == Sum(frequencies[..symbol]) + w
    decreases |frequencies|
  {
    var last := |frequencies| - 1;
    FitsAt(k, frequencies, last);
    var before := Sum(frequencies[..last]);
    if i < before {
      symbol, w := StateOwner(k, frequencies[..last], i);
      assert frequencies[..last][..symbol] == frequencies[..symbol];
    } else {
      symbol, w := last, i - before;
    }
  }

  /** State i can be followed by state x. */
  predicate LeadsTo(entry: Entry, x: nat) {
    entry.delta <= x < entry.delta + Pow2(entry.bits)
  }

  /** Every entry reads at most k bits and leads to states below 2^k only. */
  lemma EntriesStay(k: nat, frequencies: seq<nat>, i: nat)
    requires Fits(k, frequencies) && i < |Table(k, frequencies)|
    ensures var entry := Table(k, frequencies)[i];
      && entry.symbol < |frequencies| && frequencies[entry.symbol] > 0
      && entry.bits <= k && entry.delta + Pow2(entry.bits) <= Pow2(k)
  {
    hide Table, Sum, SlotOf, Reaches;
    var symbol, w := StateOwner(k, frequencies, i);
    TableAt(k, frequencies, symbol, w);
    var f := frequencies[symbol];
    SlotStays(k, f, w);
  }

  lemma SlotStays(k: nat, f: nat, w: nat)
    requires w < f <= Pow2(k)
    ensures var slot := SlotOf(k, f, w); slot.bits <= k && slot.delta + Pow2(slot.bits) <= Pow2(k)
  {
    hide NumberOfBits, BaseWeight, Shl, Pow2, WeightOf;
    var slot := SlotOf(k, f, w);
    ReachesUnique(k, f, w, slot.delta + Pow2(slot.bits) - 1);
    LowSlot(k, f, w);
    FullRange(k, f);
  }

  /** The state of a symbol from which state x is reached: one step of the encoder. */
  ghost function StateFor(k: nat, frequencies: seq<nat>, symbol: nat, x: nat): (i: nat)
    requires Fits(k, frequencies) && symbol < |frequencies| && frequencies[symbol] > 0 && x < Pow2(k)
    ensures i < |Table(k, frequencies)|
    ensures Table(k, frequencies)[i].symbol == symbol && LeadsTo(Table(k, frequencies)[i], x)
  {
    hide Table, Sum, SlotOf, WeightOf;
    FitsAt(k, frequencies, symbol);
    var w := WeightOf(k, frequencies[symbol], x);
    TableAt(k, frequencies, symbol, w);
    WeightReaches(k, frequencies[symbol], x);
    Sum(frequencies[..symbol]) + w
  }

  /** Of the states of a symbol exactly one leads to a given state. */
  lemma StateForUnique(k: nat, frequencies: seq<nat>, i: nat, x: nat)
    requires Fits(k, frequencies) && i < |Table(k, frequencies)| && LeadsTo(Table(k, frequencies)[i], x)
    ensures var symbol := Table(k, frequencies)[i].symbol;
      && x < Pow2(k) && symbol < |frequencies| && frequencies[symbol] > 0
      && i == StateFor(k, frequencies, symbol, x)
  {
    hide Table, Sum, SlotOf, WeightOf;
    var symbol, w := StateOwner(k, frequencies, i);
    TableAt(k, frequencies, symbol, w);
    ReachesUnique(k, frequencies[symbol], w, x);
  }

  /** State i stands for the symbol and can be followed by state x. */
  ghost predicate Precedes(table: seq<Entry>, symbol: Byte, i: nat, x: nat) {
    i < |table| && table[i].symbol == symbol && LeadsTo(table[i], x)
  }

  /**
   * The partition of the states, for a whole table: every state below 2^k follows exactly one of the states of
   * each symbol in use, and no other state follows any. When the frequencies add up to 2^k, the table has an
   * entry for each of them.
   */
  lemma TablePartition(k: nat, frequencies: seq<nat>, symbol: Byte, x: nat)
    requires Fits(k, frequencies) && symbol < |frequencies| && frequencies[symbol] > 0
    ensures var table := Table(k, frequencies);
      && (x < Pow2(k) <==> exists i: nat :: Precedes(table, symbol, i, x))
      && (forall i, j: nat :: Precedes(table, symbol, i, x) && Precedes(table, symbol, j, x) ==> i == j)
      && (Sum(frequencies) == Pow2(k) && x < Pow2(k) ==> x < |table|)
  {
    hide Table, Sum, LeadsTo, StateFor;
    var table := Table(k, frequencies);
    if x < Pow2(k) {
      assert Precedes(table, symbol, StateFor(k, frequencies, symbol, x), x);
    }
    forall i: nat | Precedes(table, symbol, i, x)
      ensures x < Pow2(k) && i == StateFor(k, frequencies, symbol, x)
    {
      StateForUnique(k, frequencies, i, x);
    }
  }

  /** Tables whose states read few bits and stay below a bound. */
  ghost predicate Closed(table: seq<Entry>, k: nat) {
    forall i :: 0 <= i < |table| ==> table[i].bits <= k && table[i].delta + Pow2(table[i].bits) <= Pow2(k)
  }

  lemma TableClosed(k: nat, frequencies: seq<nat>)
    requires Fits(k, frequencies)
    ensures Closed(Table(k, frequencies), k)
  {
    hide Table;
    forall i | 0 <= i < |Table(k, frequencies)|
      ensures var e := Table(k, frequencies)[i]; e.bits <= k && e.delta + Pow2(e.bits) <= Pow2(k)
    {
      EntriesStay(k, frequencies, i);
    }
  }
}
