/** What LZNT1 data means (section 2.5 of MS-XCA). */
module Lznt1Format {
  import opened Options
  import opened Words
  import opened Lz77

  // ---- The split of a tuple ----

  /** More bytes than this in a block leave no bit for the length of a match. */
  const LARGEST_OFFSET: nat := 0x1_0000

  /** The largest distance of a tuple that keeps `shift` bits for the length. */
  function Reach(shift: nat): (r: nat)
    requires shift <= 12
    ensures r <= LARGEST_OFFSET && (shift == 0 ==> r == LARGEST_OFFSET)
  {
    Pow2Monotone(16 - shift, 16);
    Pow2Table();
    Pow2(16 - shift)
  }

  lemma ReachShrinks(a: nat, b: nat)
    requires a <= b <= 12
    ensures Reach(b) <= Reach(a)
  {
    Pow2Monotone(16 - b, 16 - a);
  }

  /** The most bits, up to `top`, that the length can have so that every place in the block is within distance. */
  function ShiftFrom(p: nat, top: nat): (shift: nat)
    requires p <= LARGEST_OFFSET && top <= 12
    ensures shift <= top && p <= Reach(shift)
    ensures forall other :: shift < other <= top ==> p > Reach(other)
  {
    if p <= Reach(top) then top else ShiftFrom(p, top - 1)
  }

  /** The split in force when p bytes of the block are written. */
  function ShiftFor(p: nat): (shift: nat)
    requires p <= LARGEST_OFFSET
    ensures shift <= 12 && p <= Reach(shift)
    ensures forall other :: shift < other <= 12 ==> p > Reach(other)
  {
    ShiftFrom(p, 12)
  }

  lemma ShiftUnique(p: nat, shift: nat)
    requires p <= LARGEST_OFFSET && shift <= 12 && p <= Reach(shift) && (shift < 12 ==> p > Reach(shift + 1))
    ensures shift == ShiftFor(p)
  {
    hide ShiftFor, Reach;
    var s := ShiftFor(p);
    if shift < s {
      ReachShrinks(shift + 1, s);
    }
  }

  // ---- How far a block can get ----

  /** A block: where its data begins and ends, and where its output starts. */
  datatype Frame = Frame(begin: nat, end: nat, start: nat) {

    predicate Valid() {
      begin <= end <= begin + 0x1000
    }
  }

  /** The most that can be written when so many bytes of the block are read. */
  predicate Bounded(p: nat, read: nat) {
    p <= 4114 + 5 * read
  }

  /** Half of the largest offset, which no block gets to; up to there a tuple keeps a bit for the length. */
  const HALF_OFFSET: nat := 0x8000

  /** A match takes a block from its first 4096 bytes to 4114 at most, and from there on adds 10 bytes at most. */
  lemma Growth(p: nat)
    requires p <= HALF_OFFSET
    ensures var shift := ShiftFor(p);
      && shift >= 1
      && (p <= 4096 ==> p + Pow2(shift) + 2 <= 4114)
      && (p > 4096 ==> Pow2(shift) + 2 <= 10)
  {
    hide ShiftFor, Pow2;
    Reaches();
    var shift := ShiftFor(p);
    if shift > 3 { ReachShrinks(4, shift); }
    Pow2Table();
    MorePowers();
  }

  lemma Reaches()
    ensures Reach(1) == 0x8000 && Reach(2) == 0x4000 && Reach(3) == 0x2000 && Reach(4) == 0x1000 && Reach(5) == 0x800
    ensures Reach(6) == 0x400 && Reach(7) == 0x200 && Reach(8) == 0x100 && Reach(9) == 0x80 && Reach(10) == 0x40
    ensures Reach(11) == 0x20 && Reach(12) == 0x10
  {
    Pow2Table();
    MorePowers();
  }

  // ---- Blocks ----

  /** One literal byte or one tuple. */
  function Item(data: seq<Byte>, pos: nat, isTuple: bool, out: seq<Byte>, start: nat, capacity: nat)
    : (r: Option<(seq<Byte>, nat)>)
    requires start <= |out| <= capacity && |out| - start <= HALF_OFFSET
    ensures r.Some? ==> |out| <= |r.value.0| <= capacity && pos < r.value.1 <= |data|
    ensures r.Some? ==> |r.value.0| - start <= 4114 || |r.value.0| - |out| <= 5 * (r.value.1 - pos)
  {
    if isTuple then
      if pos + 2 > |data| then None
      else
        Growth(|out| - start);
        var tuple, shift := Word16(data[pos], data[pos + 1]), ShiftFor(|out| - start);
        var distance, length := Shr(tuple, shift) + 1, Low(tuple, shift) + 3;
        if distance > |out| || |out| + length > capacity then None
        else Some((CopyMatch(out, distance, length), pos + 2))
    else if pos >= |data| || |out| >= capacity then None
    else Some((out + [data[pos]], pos + 1))
  }

  /** Up to n items, chosen by the flags from the lowest bit on; the end of the block ends the group. */
  function Group(data: seq<Byte>, pos: nat, f: Frame, flags: nat, n: nat, out: seq<Byte>, capacity: nat)
    : (r: Option<(seq<Byte>, nat)>)
    requires f.Valid() && f.begin <= pos <= f.end && f.start <= |out| <= capacity
    requires Bounded(|out| - f.start, pos - f.begin)
    ensures r.Some? ==> |out| <= |r.value.0| <= capacity && pos <= r.value.1
    ensures r.Some? ==> Bounded(|r.value.0| - f.start, r.value.1 - f.begin)
    ensures r.Some? && r.value.1 > pos ==> r.value.1 <= |data|
    decreases n
  {
    if n == 0 then Some((out, pos))
    else
      match Item(data, pos, flags % 2 == 1, out, f.start, capacity)
      case None => None
      case Some((longer, next)) =>
        if next >= f.end then Some((longer, next))
        else Group(data, next, f, flags / 2, n - 1, longer, capacity)
  }

  /** The output after a compressed block. */
  function CompressedBlock(data: seq<Byte>, pos: nat, f: Frame, out: seq<Byte>, capacity: nat): (r: Option<seq<Byte>>)
    requires f.Valid() && f.begin <= pos && f.start <= |out| <= capacity && Bounded(|out| - f.start, pos - f.begin)
    ensures r.Some? ==> |out| <= |r.value| <= capacity
    decreases |data| - pos
  {
    if pos >= f.end || pos >= |data| then Some(out)
    else
      match Group(data, pos + 1, f, data[pos], 8, out, capacity)
      case None => None
      case Some((longer, next)) => CompressedBlock(data, next, f, longer, capacity)
  }

  /** The output after all blocks: until the data ends, a zero header follows or the buffer is full. */
  function Blocks(data: seq<Byte>, pos: nat, out: seq<Byte>, capacity: nat): (r: Option<seq<Byte>>)
    requires |out| <= capacity
    ensures r.Some? ==> |r.value| <= capacity
    decreases |data| - pos
  {
    if pos >= |data| || |out| >= capacity then Some(out)
    else if pos + 2 > |data| then None
    else
      var header := Word16(data[pos], data[pos + 1]);
      var end := pos + 2 + header % 0x1000 + 1;
      if header == 0 then Some(out)
      else if header >= 0x8000 then
        match CompressedBlock(data, pos + 2, Frame(pos + 2, end, |out|), out, capacity)
        case None => None
        case Some(longer) => Blocks(data, end, longer, capacity)
      else if end > |data| || |out| + (end - pos - 2) > capacity then None
      else Blocks(data, end, out + data[pos + 2..end], capacity)
  }

  function Decompressed(data: seq<Byte>, capacity: nat): Option<seq<Byte>> {
    Blocks(data, 0, [], capacity)
  }

  // ---- One step of each ----

  lemma GroupNext(data: seq<Byte>, pos: nat, f: Frame, flags: nat, n: nat, out: seq<Byte>, capacity: nat)
    requires f.Valid() && f.begin <= pos <= f.end && f.start <= |out| <= capacity && n > 0
    requires Bounded(|out| - f.start, pos - f.begin)
    ensures Group(data, pos, f, flags, n, out, capacity) ==
      match Item(data, pos, flags % 2 == 1, out, f.start, capacity)
      case None => None
      case Some((longer, next)) =>
        if next >= f.end then Some((longer, next)) else Group(data, next, f, flags / 2, n - 1, longer, capacity)
  {
    hide Item;
  }

  lemma EmptyGroup(data: seq<Byte>, pos: nat, f: Frame, flags: nat, out: seq<Byte>, capacity: nat)
    requires f.Valid() && f.begin <= pos <= f.end && f.start <= |out| <= capacity
    requires Bounded(|out| - f.start, pos - f.begin)
    ensures Group(data, pos, f, flags, 0, out, capacity) == Some((out, pos))
  {
  }

  lemma BlockNext(data: seq<Byte>, pos: nat, f: Frame, out: seq<Byte>, capacity: nat)
    requires f.Valid() && f.begin <= pos && f.start <= |out| <= capacity && Bounded(|out| - f.start, pos - f.begin)
    ensures pos >= f.end || pos >= |data| ==> CompressedBlock(data, pos, f, out, capacity) == Some(out)
    ensures pos < f.end && pos < |data| ==>
      CompressedBlock(data, pos, f, out, capacity) ==
      match Group(data, pos + 1, f, data[pos], 8, out, capacity)
      case None => None
      case Some((longer, next)) => CompressedBlock(data, next, f, longer, capacity)
  {
    hide Group;
  }

  lemma BlocksNext(data: seq<Byte>, pos: nat, out: seq<Byte>, capacity: nat)
    requires |out| <= capacity
    ensures Blocks(data, pos, out, capacity) ==
      if pos >= |data| || |out| >= capacity then Some(out)
      else if pos + 2 > |data| then None
      else
        var header := Word16(data[pos], data[pos + 1]);
        var end := pos + 2 + header % 0x1000 + 1;
        if header == 0 then Some(out)
        else if header >= 0x8000 then
          match CompressedBlock(data, pos + 2, Frame(pos + 2, end, |out|), out, capacity)
          case None => None
          case Some(longer) => Blocks(data, end, longer, capacity)
        else if end > |data| || |out| + (end - pos - 2) > capacity then None
        else Blocks(data, end, out + data[pos + 2..end], capacity)
  {
    hide CompressedBlock;
  }
}
