/** The Huffman trees of a bzip2 block: code sizes as differences, checked to be complete. */
module Bzip2Trees {
  import opened Options
  import opened Words
  import opened Bits
  import opened Bitstreams
  import opened Bzip2Bitstreams
  import opened HuffmanCodes
  import opened Huffman

  const LARGEST: nat := 20

  // ---- What the bits mean ----

  /** The next code size, starting from the previous one: 0 ends, 10 adds and 11 subtracts one. */
  function CodeSize(s: seq<Bit>, pos: nat, size: nat): (r: Option<(Byte, nat)>)
    ensures r.Some? ==> r.value.0 < LARGEST && r.value.1 >= pos
    decreases |s| - pos
  {
    if size >= LARGEST then None
    else if At(s, pos) == 0 then Some((size, pos + 1))
    else if At(s, pos + 1) == 0 then CodeSize(s, pos + 2, size + 1)
    else if size == 0 then None
    else CodeSize(s, pos + 2, size - 1)
  }

  function CodeSizes(s: seq<Bit>, pos: nat, count: nat, size: nat): (r: Option<(seq<Byte>, nat)>)
    ensures r.Some? ==> |r.value.0| == count && r.value.1 >= pos
    ensures r.Some? ==> forall i :: 0 <= i < count ==> r.value.0[i] < LARGEST
    decreases count
  {
    if count == 0 then Some(([], pos))
    else
      match CodeSize(s, pos, size)
      case None => None
      case Some((first, next)) =>
        match CodeSizes(s, next, count - 1, first)
        case None => None
        case Some((rest, end)) => Some(([first] + rest, end))
  }

  /** Sizes that give every symbol a code and leave no code unused. */
  ghost predicate FullCode(sizes: seq<nat>) {
    Complete(sizes, LARGEST) && forall i :: 0 <= i < |sizes| ==> sizes[i] > 0
  }

  /** The code sizes of the next tree and the position after them. */
  ghost function Tree(s: seq<Bit>, pos: nat, count: nat): (r: Option<(seq<Byte>, nat)>)
    ensures r.Some? ==> |r.value.0| == count && FullCode(r.value.0) && r.value.1 >= pos
  {
    match CodeSizes(s, pos + 5, count, MsbValue(s, pos, 5))
    case None => None
    case Some((sizes, end)) => if FullCode(sizes) then Some((sizes, end)) else None
  }

  // ---- The encoder ----

  /** The running size goes up or down by one. */
  datatype Move = Up | Down

  function Moved(size: nat, move: Move): nat
    requires size > 0
  {
    if move.Up? then size + 1 else size - 1
  }

  /** The running size stays in the range of the format, from 1 to 20. */
  predicate Walks(size: nat, moves: seq<Move>)
    decreases |moves|
  {
    1 <= size <= LARGEST && (|moves| == 0 || Walks(Moved(size, moves[0]), moves[1..]))
  }

  /** Where the moves lead. */
  function Reached(size: nat, moves: seq<Move>): (r: Byte)
    requires Walks(size, moves)
    ensures 1 <= r <= LARGEST
    decreases |moves|
  {
    if |moves| == 0 then size else Reached(Moved(size, moves[0]), moves[1..])
  }

  /** The moves that the decoder follows to their end: no running size is 20, and none goes below 0. */
  predicate StaysIn(size: nat, moves: seq<Move>)
    decreases |moves|
  {
    size < LARGEST &&
    (|moves| == 0 || ((size > 0 || moves[0].Up?) && StaysIn(if size == 0 then 1 else Moved(size, moves[0]), moves[1..])))
  }

  /** Where they lead. */
  function EndOf(size: nat, moves: seq<Move>): (r: Byte)
    requires StaysIn(size, moves)
    ensures r < LARGEST
    decreases |moves|
  {
    if |moves| == 0 then size else EndOf(if size == 0 then 1 else Moved(size, moves[0]), moves[1..])
  }

  function MovesBits(moves: seq<Move>): seq<Bit> {
    if |moves| == 0 then [0] else [1, if moves[0].Up? then 0 else 1] + MovesBits(moves[1..])
  }

  /** Any moves from any size are followed exactly as far as that: otherwise the size is refused. */
  lemma {:induction false} ReadMoves(s: seq<Bit>, pos: nat, size: nat, moves: seq<Move>)
    requires Has(s, pos, MovesBits(moves))
    ensures CodeSize(s, pos, size) ==
      if StaysIn(size, moves) then Some((EndOf(size, moves), pos + |MovesBits(moves)|)) else None
    decreases |moves|
  {
    hide Has, CodeSize, At;
    TooLarge(s, pos, size);
    if |moves| == 0 {
      if size < LARGEST {
        ReadStop(s, pos, size);
      }
    } else {
      var sign: Bit := if moves[0].Up? then 0 else 1;
      HasConcat(s, pos, [1, sign], MovesBits(moves[1..]));
      if size < LARGEST {
        ReadChange(s, pos, size, sign);
        if size > 0 || sign == 0 {
          ReadMoves(s, pos + 2, if size == 0 then 1 else Moved(size, moves[0]), moves[1..]);
        }
      }
    }
  }

  /** Within the range of the format only a running size of 20 is refused. */
  lemma {:induction false} WalksStay(size: nat, moves: seq<Move>)
    requires Walks(size, moves)
    ensures StaysIn(size, moves) <==> Below20(size, moves)
    ensures StaysIn(size, moves) ==> EndOf(size, moves) == Reached(size, moves)
    decreases |moves|
  {
    if |moves| > 0 { WalksStay(Moved(size, moves[0]), moves[1..]); }
  }

  /** No running size is 20, the first and the last included. */
  predicate Below20(size: nat, moves: seq<Move>)
    requires Walks(size, moves)
    decreases |moves|
  {
    size != 20 && (|moves| == 0 || Below20(Moved(size, moves[0]), moves[1..]))
  }

  lemma TooLarge(s: seq<Bit>, pos: nat, size: nat)
    ensures size >= LARGEST ==> CodeSize(s, pos, size) == None
  {
  }

  lemma ReadChange(s: seq<Bit>, pos: nat, size: nat, sign: Bit)
    requires Has(s, pos, [1, sign]) && size < LARGEST
    ensures CodeSize(s, pos, size) ==
      if sign == 0 then CodeSize(s, pos + 2, size + 1) else if size > 0 then CodeSize(s, pos + 2, size - 1) else None
  {
    hide At;
    assert At(s, pos + 0) == [1, sign][0] && At(s, pos + 1) == [1, sign][1];
  }

  lemma ReadStop(s: seq<Bit>, pos: nat, size: nat)
    requires Has(s, pos, [0]) && size < LARGEST
    ensures CodeSize(s, pos, size) == Some((size, pos + 1))
  {
    hide At;
    assert At(s, pos + 0) == [0][0];
  }

  /** The moves of one symbol after the other. */
  predicate AllWalk(size: nat, lists: seq<seq<Move>>)
    decreases |lists|
  {
    |lists| == 0 || (Walks(size, lists[0]) && AllWalk(Reached(size, lists[0]), lists[1..]))
  }

  function SizesFrom(size: nat, lists: seq<seq<Move>>): (r: seq<Byte>)
    requires AllWalk(size, lists)
    ensures |r| == |lists| && forall i :: 0 <= i < |r| ==> 1 <= r[i] <= LARGEST
    decreases |lists|
  {
    if |lists| == 0 then []
    else [Reached(size, lists[0])] + SizesFrom(Reached(size, lists[0]), lists[1..])
  }

  /** The decoder follows all lists to their end. */
  predicate AllIn(size: nat, lists: seq<seq<Move>>)
    decreases |lists|
  {
    |lists| == 0 || (StaysIn(size, lists[0]) && AllIn(EndOf(size, lists[0]), lists[1..]))
  }

  function SizesIn(size: nat, lists: seq<seq<Move>>): (r: seq<Byte>)
    requires AllIn(size, lists)
    ensures |r| == |lists|
    decreases |lists|
  {
    if |lists| == 0 then [] else [EndOf(size, lists[0])] + SizesIn(EndOf(size, lists[0]), lists[1..])
  }

  lemma {:induction false} SameSizes(size: nat, lists: seq<seq<Move>>)
    requires AllWalk(size, lists) && AllIn(size, lists)
    ensures SizesIn(size, lists) == SizesFrom(size, lists)
    decreases |lists|
  {
    hide Walks, StaysIn, EndOf, Reached;
    if |lists| > 0 {
      WalksStay(size, lists[0]);
      SameSizes(EndOf(size, lists[0]), lists[1..]);
    }
  }

  function ListsBits(lists: seq<seq<Move>>): seq<Bit> {
    if |lists| == 0 then [] else MovesBits(lists[0]) + ListsBits(lists[1..])
  }

  lemma {:induction false} ReadLists(s: seq<Bit>, pos: nat, size: nat, lists: seq<seq<Move>>)
    requires Has(s, pos, ListsBits(lists))
    ensures CodeSizes(s, pos, |lists|, size) ==
      if AllIn(size, lists) then Some((SizesIn(size, lists), pos + |ListsBits(lists)|)) else None
    decreases |lists|
  {
    hide Has, CodeSize, MovesBits, StaysIn, EndOf;
    if |lists| > 0 {
      HasConcat(s, pos, MovesBits(lists[0]), ListsBits(lists[1..]));
      ReadMoves(s, pos, size, lists[0]);
      if StaysIn(size, lists[0]) {
        ReadLists(s, pos + |MovesBits(lists[0])|, EndOf(size, lists[0]), lists[1..]);
      }
    }
  }

  /** Whatever is written, it is a tree exactly when the decoder can follow it and the sizes are a full code. */
  lemma TreeIff(s: seq<Bit>, pos: nat, start: nat, lists: seq<seq<Move>>)
    requires start < 32 && Has(s, pos, MsbBits(start, 5) + ListsBits(lists))
    ensures Tree(s, pos, |lists|) ==
      if AllIn(start, lists) && FullCode(SizesIn(start, lists)) then
        Some((SizesIn(start, lists), pos + 5 + |ListsBits(lists)|))
      else None
  {
    hide Has, MsbBits, MsbValue, SizesIn, CodeSizes, AllIn, ListsBits, Pow2, FullCode;
    HasConcat(s, pos, MsbBits(start, 5), ListsBits(lists));
    Pow2Table();
    ReadMsbExact(s, pos, start, 5);
    ReadLists(s, pos + 5, start, lists);
  }

  /** A tree as it is written: the start value and the moves to the size of every symbol. */
  datatype TreeForm = TreeForm(start: nat, moves: seq<seq<Move>>) {

    /** A full code for the symbols, with running sizes from 1 to 20. */
    ghost predicate Valid(count: nat) {
      1 <= start <= LARGEST && 0 < |moves| == count && Walkable() && FullCode(Sizes())
    }

    /** The running sizes stay in the range of the format. */
    predicate Walkable() {
      AllWalk(start, moves)
    }

    function Sizes(): (r: seq<Byte>)
      requires Walkable()
      ensures |r| == |moves|
    {
      SizesFrom(start, moves)
    }

    /** No running size is 20. */
    predicate Readable() {
      AllIn(start, moves)
    }

    function Bits(): seq<Bit> {
      MsbBits(start, 5) + ListsBits(moves)
    }
  }

  /** Every full code, however it is written, is read back exactly when no running size is 20. */
  lemma TreeRoundTrip(s: seq<Bit>, pos: nat, tree: TreeForm, count: nat)
    requires tree.Valid(count) && Has(s, pos, tree.Bits())
    ensures Tree(s, pos, count) == if tree.Readable() then Some((tree.Sizes(), pos + |tree.Bits()|)) else None
  {
    hide Has, MsbBits, SizesIn, SizesFrom, AllWalk, AllIn, ListsBits, FullCode, Tree;
    TreeIff(s, pos, tree.start, tree.moves);
    if tree.Readable() {
      SameSizes(tree.start, tree.moves);
    }
  }

  // ---- The shortest way to write sizes ----

  function Path(from: nat, to: nat): seq<Move>
    decreases if from < to then to - from else from - to
  {
    if from < to then [Up] + Path(from + 1, to) else if from > to then [Down] + Path(from - 1, to) else []
  }

  lemma {:induction false} PathWalks(from: nat, to: nat)
    requires 1 <= from <= LARGEST && 1 <= to <= LARGEST
    ensures Walks(from, Path(from, to)) && Reached(from, Path(from, to)) == to
    ensures StaysIn(from, Path(from, to)) <==> from < LARGEST && to < LARGEST
    ensures StaysIn(from, Path(from, to)) ==> EndOf(from, Path(from, to)) == to
    decreases if from < to then to - from else from - to
  {
    if from < to {
      PathWalks(from + 1, to);
      assert Path(from, to)[1..] == Path(from + 1, to);
    } else if from > to {
      PathWalks(from - 1, to);
      assert Path(from, to)[1..] == Path(from - 1, to);
    }
  }

  function Paths(from: nat, sizes: seq<Byte>): seq<seq<Move>>
    decreases |sizes|
  {
    if |sizes| == 0 then [] else [Path(from, sizes[0])] + Paths(sizes[0], sizes[1..])
  }

  /** All sizes are below the one the decoder refuses. */
  predicate AllSmall(sizes: seq<nat>) {
    forall i :: 0 <= i < |sizes| ==> sizes[i] < LARGEST
  }

  lemma {:induction false} PathsWalk(from: nat, sizes: seq<Byte>)
    requires 1 <= from <= LARGEST && forall i :: 0 <= i < |sizes| ==> 1 <= sizes[i] <= LARGEST
    ensures AllWalk(from, Paths(from, sizes)) && SizesFrom(from, Paths(from, sizes)) == sizes
    ensures |sizes| > 0 ==> (AllIn(from, Paths(from, sizes)) <==> from < LARGEST && AllSmall(sizes))
    decreases |sizes|
  {
    hide Path, Walks, Reached, StaysIn, EndOf;
    if |sizes| > 0 {
      var rest := Paths(sizes[0], sizes[1..]);
      assert Paths(from, sizes)[1..] == rest;
      PathWalks(from, sizes[0]);
      PathsWalk(sizes[0], sizes[1..]);
      assert [sizes[0]] + sizes[1..] == sizes;
      SmallRest(sizes);
    }
  }

  lemma SmallRest(sizes: seq<nat>)
    requires |sizes| > 0
    ensures AllSmall(sizes) <==> sizes[0] < LARGEST && AllSmall(sizes[1..])
  {
    if sizes[0] < LARGEST && AllSmall(sizes[1..]) {
      forall i | 0 <= i < |sizes| ensures sizes[i] < LARGEST {
        if i > 0 { assert sizes[1..][i - 1] < LARGEST; }
      }
    }
  }

  /** Every full code can be written from every start value of the format. */
  lemma FormOf(start: nat, sizes: seq<Byte>) returns (tree: TreeForm)
    requires 1 <= start <= LARGEST && |sizes| > 0 && FullCode(sizes)
    ensures tree.start == start && tree.Valid(|sizes|) && tree.Sizes() == sizes
    ensures tree.Readable() <==> start < LARGEST && AllSmall(sizes)
  {
    hide Paths, SizesFrom, AllWalk, AllIn, Kraft, AllSmall;
    PathsWalk(start, sizes);
    tree := TreeForm(start, Paths(start, sizes));
  }

  // ---- The completeness check ----

  /** Sum of 2^(largest - size) over all sizes, zero sizes included. */
  function CheckSum(sizes: seq<nat>, largest: nat): nat
    requires forall i :: 0 <= i < |sizes| ==> sizes[i] <= largest
  {
    if |sizes| == 0 then 0
    else CheckSum(sizes[..|sizes| - 1], largest) + Pow2(largest - sizes[|sizes| - 1])
  }

  lemma {:induction false} CheckSumBound(sizes: seq<nat>, largest: nat)
    requires forall i :: 0 <= i < |sizes| ==> sizes[i] <= largest
    ensures CheckSum(sizes, largest) >= |sizes|
  {
    if |sizes| > 0 { CheckSumBound(sizes[..|sizes| - 1], largest); }
  }

  /** With two sizes or more a zero size already exceeds the whole code space. */
  lemma {:induction false} ZeroOverflows(sizes: seq<nat>, largest: nat, i: nat)
    requires forall i :: 0 <= i < |sizes| ==> sizes[i] <= largest
    requires i < |sizes| && sizes[i] == 0
    ensures CheckSum(sizes, largest) >= Pow2(largest) + |sizes| - 1
  {
    var n := |sizes| - 1;
    if i < n {
      ZeroOverflows(sizes[..n], largest, i);
    } else {
      CheckSumBound(sizes[..n], largest);
    }
  }

  lemma {:induction false} CheckSumIsKraft(sizes: seq<nat>, largest: nat)
    requires forall i :: 0 <= i < |sizes| ==> 0 < sizes[i] <= largest
    ensures CheckSum(sizes, largest) == Kraft(sizes, largest)
  {
    if |sizes| > 0 { CheckSumIsKraft(sizes[..|sizes| - 1], largest); }
  }

  lemma {:induction false} KraftScales(sizes: seq<nat>, largest: nat, more: nat)
    requires forall i :: 0 <= i < |sizes| ==> sizes[i] <= largest
    ensures Kraft(sizes, largest + more) == Shl(Kraft(sizes, largest), more)
  {
    if |sizes| == 0 {
      ShlZero(more);
    } else {
      var n := |sizes| - 1;
      KraftScales(sizes[..n], largest, more);
      var last := if sizes[n] == 0 then 0 else Pow2(largest - sizes[n]);
      ShlAdd(Kraft(sizes[..n], largest), last, more);
      if sizes[n] == 0 {
        ShlZero(more);
      } else {
        ShlPow2(largest - sizes[n], more);
      }
    }
  }

  lemma {:induction false} ShlInjective(x: nat, y: nat, k: nat)
    requires Shl(x, k) == Shl(y, k)
    ensures x == y
  {
    if k > 0 { ShlInjective(x, y, k - 1); }
  }

  /** The check value is zero exactly for a full code. */
  lemma CheckIsFull(sizes: seq<nat>, largest: nat)
    requires 2 <= |sizes| <= 65535 && largest <= LARGEST
    requires forall i :: 0 <= i < |sizes| ==> sizes[i] <= largest
    ensures CheckSum(sizes, largest) == Pow2(largest) <==> FullCode(sizes)
  {
    hide Kraft, CheckSum, Pow2, Shl;
    if i :| 0 <= i < |sizes| && sizes[i] == 0 {
      ZeroOverflows(sizes, largest, i);
    } else {
      CheckSumIsKraft(sizes, largest);
      KraftScales(sizes, largest, LARGEST - largest);
      ShlPow2(largest, LARGEST - largest);
      if Kraft(sizes, LARGEST) == Pow2(LARGEST) {
        ShlInjective(Kraft(sizes, largest), Pow2(largest), LARGEST - largest);
      }
      assert sizes[0] != 0;
    }
  }

  // ---- Reading ----

  /** The loop over the difference bits of one code size; it ends because padding bits are zero. */
  method ReadCodeSize(bitstream: Bzip2Bitstream, previous: nat) returns (r: Option<Byte>)
    requires bitstream.Valid()
    modifies bitstream
    ensures bitstream.Valid()
    ensures var spec := CodeSize(bitstream.Source(), old(bitstream.position), previous);
      && r.Some? == spec.Some?
      && (r.Some? ==> r.value == spec.value.0 && bitstream.position == spec.value.1)
  {
    hide Bzip2Bitstream.Valid, Bzip2Bitstream.Source, MsbValue;
    ghost var s := bitstream.Source();
    var codeSize: nat := previous;
    while codeSize < LARGEST
      invariant bitstream.Valid() && bitstream.Source() == s
      invariant CodeSize(s, old(bitstream.position), previous) == CodeSize(s, bitstream.position, codeSize)
      decreases |s| - bitstream.position
    {
      OneBit(MsbFirst, s, bitstream.position);
      OneBit(MsbFirst, s, bitstream.position + 1);
      var more := bitstream.GetValue(1);
      if more == 0 {
        return Some(codeSize);
      }
      var down := bitstream.GetValue(1);
      if down == 0 {
        codeSize := codeSize + 1;
      } else {
        if codeSize == 0 {
          return None;
        }
        codeSize := codeSize - 1;
      }
    }
    r := None;
  }

  lemma NextCodeSize(done: seq<Byte>, s: seq<Bit>, pos: nat, count: nat, size: nat)
    requires count > 0
    ensures var first := CodeSize(s, pos, size);
      if first.None? then After(done, CodeSizes(s, pos, count, size)) == None
      else After(done, CodeSizes(s, pos, count, size)) ==
           After(done + [first.value.0], CodeSizes(s, first.value.1, count - 1, first.value.0))
  {
    var first := CodeSize(s, pos, size);
    if first.Some? {
      var r := CodeSizes(s, first.value.1, count - 1, first.value.0);
      assert CodeSizes(s, pos, count, size) == After([first.value.0], r);
      AfterAfter(done, [first.value.0], r);
    }
  }

  lemma NoCodeSizes(done: seq<Byte>, s: seq<Bit>, pos: nat, size: nat)
    ensures After(done, CodeSizes(s, pos, 0, size)) == Some((done, pos))
  {
    AfterEnd(done, pos);
  }

  method ReadCodeSizes(bitstream: Bzip2Bitstream, count: nat, start: nat)
    returns (r: Option<seq<Byte>>, largest: nat)
    requires bitstream.Valid()
    modifies bitstream
    ensures bitstream.Valid()
    ensures var spec := CodeSizes(bitstream.Source(), old(bitstream.position), count, start);
      && r.Some? == spec.Some?
      && (r.Some? ==> r.value == spec.value.0 && bitstream.position == spec.value.1)
    ensures r.Some? ==> forall i :: 0 <= i < |r.value| ==> r.value[i] <= largest
    ensures r.Some? && start < LARGEST ==> largest < LARGEST
  {
    hide Bzip2Bitstream.Valid, Bzip2Bitstream.Source, CodeSize, CodeSizes, After;
    ghost var s := bitstream.Source();
    ghost var all := CodeSizes(s, bitstream.position, count, start);
    var sizes: seq<Byte> := [];
    var codeSize: nat := start;
    largest := start;
    AfterNothing(all);
    for i := 0 to count
      invariant bitstream.Valid() && bitstream.Source() == s
      invariant all == After(sizes, CodeSizes(s, bitstream.position, count - i, codeSize))
      invariant forall k :: 0 <= k < |sizes| ==> sizes[k] <= largest
      invariant start < LARGEST ==> largest < LARGEST
    {
      NextCodeSize(sizes, s, bitstream.position, count - i, codeSize);
      var next := ReadCodeSize(bitstream, codeSize);
      if next.None? {
        return None, largest;
      }
      codeSize := next.value;
      sizes := sizes + [codeSize];
      largest := if codeSize > largest then codeSize else largest;
    }
    NoCodeSizes(sizes, s, bitstream.position, codeSize);
    r := Some(sizes);
  }

  method CheckValue(sizes: seq<Byte>, largest: nat) returns (value: int)
    requires forall i :: 0 <= i < |sizes| ==> sizes[i] <= largest
    ensures value == Pow2(largest) - CheckSum(sizes, largest)
  {
    value := Pow2(largest);
    assert sizes[..0] == [];
    for i := 0 to |sizes|
      invariant value == Pow2(largest) - CheckSum(sizes[..i], largest)
    {
      assert sizes[..i + 1][..i] == sizes[..i];
      value := value - Pow2(largest - sizes[i]);
    }
    assert sizes[..|sizes|] == sizes;
  }

  lemma StartTooLarge(s: seq<Bit>, pos: nat, count: nat, size: nat)
    requires size >= LARGEST && count > 0
    ensures CodeSizes(s, pos, count, size) == None
  {
  }

  /** Succeeds exactly when the bits describe a full code, and builds it. */
  method ReadHuffmanTree(bitstream: Bzip2Bitstream, tree: HuffmanTree, count: nat) returns (ok: bool)
    requires bitstream.Valid() && 2 <= count <= 258
    requires tree.WellFormed() && tree.largestCodeSize == LARGEST && count <= |tree.symbols|
    modifies bitstream, tree
    ensures bitstream.Valid() && tree.WellFormed()
    ensures var spec := Tree(bitstream.Source(), old(bitstream.position), count);
      && ok == spec.Some?
      && (ok ==> tree.Built() && tree.codeSizes == spec.value.0 && bitstream.position == spec.value.1)
  {
    hide Bzip2Bitstream.Valid, Bzip2Bitstream.Source, CodeSizes, CheckSum, Pow2, MsbValue;
    ghost var s, pos := bitstream.Source(), bitstream.position;
    var codeSize := bitstream.GetValue(5);
    if codeSize >= LARGEST {
      StartTooLarge(s, pos + 5, count, codeSize);
    }
    var sizes, largest := ReadCodeSizes(bitstream, count, codeSize);
    if sizes.None? {
      return false;
    }
    CheckIsFull(sizes.value, largest);
    var checkValue := CheckValue(sizes.value, largest);
    if checkValue != 0 {
      return false;
    }
    ok := tree.Build(sizes.value);
  }
}
