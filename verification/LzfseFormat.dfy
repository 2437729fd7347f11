/** What an LZFSE block means, from its decoder tables on. */
module LzfseFormat {
  import opened Options
  import opened Words
  import opened Bits
  import opened Lz77
  import opened LzfseBitstreams
  import opened FseTables
  import opened FseCoding

  const LITERAL_STATES: nat := 1024
  const L_STATES: nat := 64
  const M_STATES: nat := 64
  const D_STATES: nat := 256
  const MAXIMUM_LITERALS: nat := 40064

  /** An entry of a value table: state bits come first, then the extra bits of the value. */
  datatype ValueEntry = ValueEntry(numberOfBits: nat, valueBits: nat, delta: nat, valueBase: nat, valueBitmask: nat)

  datatype Decoder = Decoder(
    numberOfLiterals: nat,
    numberOfLmdValues: nat,
    literalsDataSize: nat,
    lmdValuesDataSize: nat,
    literalStates: seq<nat>,
    lValueState: nat,
    mValueState: nat,
    dValueState: nat,
    literalBits: int,
    lmdValuesBits: int,
    literalTable: seq<Entry>,
    lValueTable: seq<ValueEntry>,
    mValueTable: seq<ValueEntry>,
    dValueTable: seq<ValueEntry>)

  /** A value entry as the table builder makes it: the mask covers the extra bits, everything fits one read. */
  predicate Sound(e: ValueEntry) {
    e.valueBits <= e.numberOfBits <= 32 && e.valueBitmask == Pow2(e.valueBits) - 1
  }

  predicate SoundTable(table: seq<ValueEntry>, numberOfStates: nat) {
    |table| <= numberOfStates && forall i :: 0 <= i < |table| ==> Sound(table[i])
  }

  /** The shape of a decoder whose tables were built. */
  ghost predicate Built(d: Decoder) {
    && |d.literalStates| == 4
    && |d.literalTable| <= LITERAL_STATES && Closed(d.literalTable, 10)
    && SoundTable(d.lValueTable, L_STATES)
    && SoundTable(d.mValueTable, M_STATES)
    && SoundTable(d.dValueTable, D_STATES)
  }

  // ---- Literals ----

  /** Literals are decoded in groups of four. */
  function Rounded(count: nat): nat {
    4 * ((count + 3) / 4)
  }

  /** The number of bits to skip first, when it is in bounds. */
  predicate SkipInBounds(bits: int) {
    -32 <= bits <= 0
  }

  /** The literals, without the zeros that fill the rest of the literal buffer. */
  function Literals(d: Decoder, s: seq<Bit>): (r: Option<(seq<Byte>, nat)>)
    requires |d.literalStates| == 4
    ensures r.Some? ==> |r.value.0| == Rounded(d.numberOfLiterals) <= MAXIMUM_LITERALS
  {
    if d.numberOfLiterals > MAXIMUM_LITERALS || !SkipInBounds(d.literalBits) then None
    else Symbols(d.literalTable, d.literalStates, s, -d.literalBits, Rounded(d.numberOfLiterals))
  }

  /** The limits on the header fields. */
  lemma LiteralLimits(d: Decoder, s: seq<Bit>)
    requires |d.literalStates| == 4
    ensures Literals(d, s).Some? ==> d.numberOfLiterals <= 40064 && -32 <= d.literalBits <= 0
    ensures Literals(d, s).Some? ==> d.numberOfLiterals <= |Literals(d, s).value.0| < d.numberOfLiterals + 4
    ensures Literals(d, s).Some? ==> |Literals(d, s).value.0| % 4 == 0
  {
    hide Symbols;
  }

  // ---- L, M and D values ----

  datatype Reading = Reading(value: nat, state: nat, end: nat)

  function ValueAt(table: seq<ValueEntry>, state: nat, s: seq<Bit>, pos: nat): Option<Reading> {
    if state >= |table| || !Sound(table[state]) then None
    else
      var e := table[state];
      var stateBits := e.numberOfBits - e.valueBits;
      Some(Reading(e.valueBase + MsbValue(s, pos + stateBits, e.valueBits),
                   e.delta + MsbValue(s, pos, stateBits),
                   pos + e.numberOfBits))
  }

  /** Literals to copy, bytes to copy from the output, and how far back; distance 0 repeats the last one. */
  datatype Lmd = Lmd(literals: nat, length: nat, distance: nat)

  datatype LmdStates = LmdStates(l: nat, m: nat, d: nat)

  /** One triple: L, then M, then D. */
  function LmdAt(d: Decoder, states: LmdStates, s: seq<Bit>, pos: nat): Option<(Lmd, LmdStates, nat)> {
    match ValueAt(d.lValueTable, states.l, s, pos)
    case None => None
    case Some(l) =>
      match ValueAt(d.mValueTable, states.m, s, l.end)
      case None => None
      case Some(m) =>
        match ValueAt(d.dValueTable, states.d, s, m.end)
        case None => None
        case Some(v) => Some((Lmd(l.value, m.value, v.value), LmdStates(l.state, m.state, v.state), v.end))
  }

  function LmdValues(d: Decoder, states: LmdStates, s: seq<Bit>, pos: nat, count: nat): (r: Option<(seq<Lmd>, nat)>)
    ensures r.Some? ==> |r.value.0| == count
    decreases count
  {
    if count == 0 then Some(([], pos))
    else
      match LmdAt(d, states, s, pos)
      case None => None
      case Some((lmd, next, end)) => After([lmd], LmdValues(d, next, s, end, count - 1))
  }

  lemma LmdValuesNext(d: Decoder, states: LmdStates, s: seq<Bit>, pos: nat, count: nat, done: seq<Lmd>)
    requires count > 0
    ensures After(done, LmdValues(d, states, s, pos, count)) ==
      match LmdAt(d, states, s, pos)
      case None => None
      case Some((lmd, next, end)) => After(done + [lmd], LmdValues(d, next, s, end, count - 1))
  {
    hide LmdAt;
    match LmdAt(d, states, s, pos)
    case None =>
    case Some((lmd, next, end)) => AfterAfter(done, [lmd], LmdValues(d, next, s, end, count - 1));
  }

  // ---- Carrying out the triples ----

  /** The output so far, the literals used and the distance in force. */
  datatype Progress = Progress(out: seq<Byte>, used: nat, distance: nat)

  /** The low 32 bits as a signed number. */
  function AsI32(x: nat): (r: int)
    ensures r <= x
  {
    if x % U32_SIZE < 0x8000_0000 then x % U32_SIZE else x % U32_SIZE - U32_SIZE
  }

  /** A copy with distance 0 puts every byte of the caller's buffer back where it was. */
  function CopyBack(buffer: seq<Byte>, out: seq<Byte>, distance: nat, length: nat): (r: seq<Byte>)
    requires distance <= |out| && |out| + length <= |buffer|
    ensures |r| == |out| + length && r[..|out|] == out
    ensures distance == 0 ==> r[|out|..] == buffer[|out|..|out| + length]
    ensures distance > 0 ==> forall i :: |out| <= i < |r| ==> r[i] == r[i - distance]
  {
    if distance == 0 then out + buffer[|out|..|out| + length] else CopyMatch(out, distance, length)
  }

  function Execute(buffer: seq<Byte>, literals: seq<Byte>, p: Progress, t: Lmd): (r: Option<Progress>)
    requires |p.out| <= |buffer| && p.used <= |literals| == MAXIMUM_LITERALS
    ensures r.Some? ==> |p.out| <= |r.value.out| <= |buffer| && r.value.used <= MAXIMUM_LITERALS
  {
    var distance := if t.distance != 0 then t.distance else p.distance;
    var remaining := |buffer| - |p.out|;
    if t.literals > MAXIMUM_LITERALS - 1 || t.literals > remaining || p.used + t.literals > MAXIMUM_LITERALS then None
    else
      var out := p.out + literals[p.used..p.used + t.literals];
      if t.length > AsI32(remaining - t.literals) || distance > |out| then None
      else Some(Progress(CopyBack(buffer, out, distance, t.length), p.used + t.literals, distance))
  }

  /** The literals of a triple are there and fit, and its distance reaches back at most to the start of the output. */
  predicate InBounds(size: nat, p: Progress, t: Lmd) {
    && t.literals < 40064 && |p.out| + t.literals <= size && p.used + t.literals <= 40064
    && (if t.distance != 0 then t.distance else p.distance) <= |p.out| + t.literals
  }

  /**
   * The room behind the literals is compared as a signed 32-bit number. A triple within its bounds is carried out
   * exactly when the low 32 bits of the room are below 2 GiB and enough for its copy, so it may be refused although
   * there is plenty of room.
   */
  lemma RoomIff(buffer: seq<Byte>, literals: seq<Byte>, p: Progress, t: Lmd)
    requires |p.out| <= |buffer| && p.used <= |literals| == MAXIMUM_LITERALS
    ensures !InBounds(|buffer|, p, t) ==> Execute(buffer, literals, p, t) == None
    ensures InBounds(|buffer|, p, t) ==>
      var room := (|buffer| - |p.out| - t.literals) % U32_SIZE;
      Execute(buffer, literals, p, t).Some? <==> room < 0x8000_0000 && t.length <= room
  {
    hide CopyMatch;
  }

  function ExecuteAll(buffer: seq<Byte>, literals: seq<Byte>, p: Progress, ts: seq<Lmd>): (r: Option<Progress>)
    requires |p.out| <= |buffer| && p.used <= |literals| == MAXIMUM_LITERALS
    ensures r.Some? ==> |r.value.out| <= |buffer| && r.value.used <= MAXIMUM_LITERALS
    decreases |ts|
  {
    if |ts| == 0 then Some(p)
    else
      match Execute(buffer, literals, p, ts[0])
      case None => None
      case Some(q) => ExecuteAll(buffer, literals, q, ts[1..])
  }

  lemma {:induction false} ExecuteAppend(buffer: seq<Byte>, literals: seq<Byte>, p: Progress, a: seq<Lmd>, b: seq<Lmd>)
    requires |p.out| <= |buffer| && p.used <= |literals| == MAXIMUM_LITERALS
    ensures ExecuteAll(buffer, literals, p, a + b) ==
      match ExecuteAll(buffer, literals, p, a)
      case None => None
      case Some(q) => ExecuteAll(buffer, literals, q, b)
    decreases |a|
  {
    hide Execute;
    if |a| == 0 {
      assert a + b == b;
    } else {
      assert (a + b)[1..] == a[1..] + b && (a + b)[0] == a[0];
      match Execute(buffer, literals, p, a[0])
      case None =>
      case Some(q) => ExecuteAppend(buffer, literals, q, a[1..], b);
    }
  }

  // ---- A block ----

  /** The literal buffer: the literals, then zeros. */
  function Filled(literals: seq<Byte>): (r: seq<Byte>)
    requires |literals| <= MAXIMUM_LITERALS
    ensures |r| == MAXIMUM_LITERALS
  {
    literals + seq<Byte>(MAXIMUM_LITERALS - |literals|, _ => 0)
  }

  /** The bits read backwards from an offset. */
  function BitsBefore(data: seq<Byte>, end: nat): seq<Bit>
    requires end <= |data|
  {
    BitsOf(MsbFirst, Reverse(data[..end]))
  }

  /** The output that is left. */
  function Outcome(p: Option<Progress>): Option<seq<Byte>> {
    if p.None? then None else Some(p.value.out)
  }

  /** The triples of a block carried out on a buffer of which the first `start` bytes are written already. */
  function Replayed(d: Decoder, s: seq<Bit>, literals: seq<Byte>, buffer: seq<Byte>, start: nat): (r: Option<seq<Byte>>)
    requires start <= |buffer| && |literals| == MAXIMUM_LITERALS
    ensures r.Some? ==> |r.value| <= |buffer|
  {
    if !SkipInBounds(d.lmdValuesBits) then None
    else
      var states := LmdStates(d.lValueState, d.mValueState, d.dValueState);
      match LmdValues(d, states, s, -d.lmdValuesBits, d.numberOfLmdValues)
      case None => None
      case Some((ts, _)) => Outcome(ExecuteAll(buffer, literals, Progress(buffer[..start], 0, 0), ts))
  }

  /** At most 32 bits are skipped before the triples, and never a negative number of them. */
  lemma SkipLimits(d: Decoder, s: seq<Bit>, literals: seq<Byte>, buffer: seq<Byte>, start: nat)
    requires start <= |buffer| && |literals| == MAXIMUM_LITERALS
    ensures Replayed(d, s, literals, buffer, start).Some? ==> -32 <= d.lmdValuesBits <= 0
  {
    hide LmdValues, ExecuteAll;
  }

  /** The output after a block whose data starts at `offset`. */
  function Block(d: Decoder, data: seq<Byte>, offset: nat, buffer: seq<Byte>, start: nat): (r: Option<seq<Byte>>)
    requires |d.literalStates| == 4 && offset <= |data| && start <= |buffer|
    ensures r.Some? ==> |r.value| <= |buffer|
  {
    var middle := offset + d.literalsDataSize;
    var end := middle + d.lmdValuesDataSize;
    if middle > |data| then None
    else
      match Literals(d, BitsBefore(data, middle))
      case None => None
      case Some((literals, _)) =>
        if end > |data| then None
        else Replayed(d, BitsBefore(data, end), Filled(literals), buffer, start)
  }
}
