/** The selectors of a bzip2 block: move-to-front coded tree indices, each in unary. */
module Bzip2Selectors {
  import opened Options
  import opened Words
  import opened Bits
  import opened Bitstreams
  import opened Bzip2Bitstreams
  import opened MoveToFront

  /** The stack that selectors start from. */
  const INITIAL_STACK: seq<Byte> := [0, 1, 2, 3, 4, 5, 6]

  /** Number of one bits before the next zero bit, at most limit. */
  function Unary(s: seq<Bit>, pos: nat, limit: nat): (k: nat)
    ensures k <= limit
    decreases limit
  {
    if limit == 0 || At(s, pos) == 0 then 0 else 1 + Unary(s, pos + 1, limit - 1)
  }

  /** The next `count` selectors and the position after them. */
  function Selectors(s: seq<Bit>, pos: nat, count: nat, trees: nat, stack: seq<Byte>): (r: Option<(seq<Byte>, nat)>)
    requires trees <= |stack|
    ensures r.Some? ==> |r.value.0| == count && r.value.1 >= pos
    decreases count
  {
    if count == 0 then Some(([], pos))
    else
      var k := Unary(s, pos, trees);
      if k >= trees then None
      else
        match Selectors(s, pos + k + 1, count - 1, trees, Front(stack, k))
        case None => None
        case Some((rest, end)) => Some(([stack[k]] + rest, end))
  }

  /** The indices of the trees are exactly the first entries of the stack. */
  ghost predicate TreesFirst(stack: seq<Byte>, trees: nat) {
    trees <= |stack| && forall i :: 0 <= i < |stack| ==> (stack[i] < trees <==> i < trees)
  }

  lemma FrontTreesFirst(stack: seq<Byte>, trees: nat, k: nat)
    requires TreesFirst(stack, trees) && k < trees
    ensures TreesFirst(Front(stack, k), trees)
  {
  }

  /** Every selector read is the index of a tree. */
  lemma {:induction false} SelectorsAreTrees(s: seq<Bit>, pos: nat, count: nat, trees: nat, stack: seq<Byte>)
    requires TreesFirst(stack, trees) && Selectors(s, pos, count, trees, stack).Some?
    ensures forall i :: 0 <= i < count ==> Selectors(s, pos, count, trees, stack).value.0[i] < trees
    decreases count
  {
    if count > 0 {
      var k := Unary(s, pos, trees);
      FrontTreesFirst(stack, trees, k);
      SelectorsAreTrees(s, pos + k + 1, count - 1, trees, Front(stack, k));
    }
  }

  // ---- The encoder ----

  /** k one bits and a zero bit. */
  function UnaryBits(k: nat): (b: seq<Bit>)
    ensures |b| == k + 1
  {
    if k == 0 then [0] else [1] + UnaryBits(k - 1)
  }

  function SelectorBits(selectors: seq<Byte>, stack: seq<Byte>): seq<Bit>
    requires forall i :: 0 <= i < |selectors| ==> selectors[i] in stack
    decreases |selectors|
  {
    if |selectors| == 0 then []
    else
      var k := IndexOf(stack, selectors[0]);
      FrontPermutes(stack, k);
      UnaryBits(k) + SelectorBits(selectors[1..], Front(stack, k))
  }

  lemma {:induction false} ReadUnary(s: seq<Bit>, pos: nat, k: nat, limit: nat)
    requires Has(s, pos, UnaryBits(k)) && k < limit
    ensures Unary(s, pos, limit) == k
    decreases k
  {
    if k == 0 {
      assert At(s, pos + 0) == UnaryBits(0)[0];
    } else {
      assert At(s, pos + 0) == UnaryBits(k)[0];
      HasConcat(s, pos, [1], UnaryBits(k - 1));
      ReadUnary(s, pos + 1, k - 1, limit - 1);
    }
  }

  lemma TreeIndex(stack: seq<Byte>, trees: nat, k: nat)
    requires TreesFirst(stack, trees) && k < |stack| && stack[k] < trees
    ensures k < trees
  {
  }

  /** Any sequence of tree indices is read back from its code. */
  lemma {:induction false} SelectorsRoundTrip(s: seq<Bit>, pos: nat, selectors: seq<Byte>, trees: nat, stack: seq<Byte>)
    requires TreesFirst(stack, trees) && trees <= |stack|
    requires forall i :: 0 <= i < |selectors| ==> selectors[i] < trees && selectors[i] in stack
    requires Has(s, pos, SelectorBits(selectors, stack))
    ensures Selectors(s, pos, |selectors|, trees, stack) ==
            Some((selectors, pos + |SelectorBits(selectors, stack)|))
    decreases |selectors|
  {
    hide Has, Front, UnaryBits, Unary, TreesFirst;
    if |selectors| > 0 {
      var k := IndexOf(stack, selectors[0]);
      TreeIndex(stack, trees, k);
      FrontPermutes(stack, k);
      FrontTreesFirst(stack, trees, k);
      HasConcat(s, pos, UnaryBits(k), SelectorBits(selectors[1..], Front(stack, k)));
      ReadUnary(s, pos, k, trees);
      SelectorsRoundTrip(s, pos + k + 1, selectors[1..], trees, Front(stack, k));
      assert [selectors[0]] + selectors[1..] == selectors;
    }
  }

  // ---- Reading ----

  /** The shifting loop of the inverse move-to-front transform. */
  method MoveInPlace(stack: array<Byte>, index: nat) returns (value: Byte)
    requires index < stack.Length
    modifies stack
    ensures value == old(stack[index])
    ensures stack[..] == Front(old(stack[..]), index)
  {
    value := stack[index];
    for stackIndex := index downto 0
      invariant forall i :: 0 <= i <= stackIndex ==> stack[i] == old(stack[i])
      invariant forall i :: stackIndex < i <= index ==> stack[i] == old(stack[i - 1])
      invariant forall i :: index < i < stack.Length ==> stack[i] == old(stack[i])
    {
      stack[stackIndex + 1] := stack[stackIndex];
    }
    stack[0] := value;
  }

  method ReadUnaryValue(bitstream: Bzip2Bitstream, limit: nat) returns (value: nat)
    requires bitstream.Valid()
    modifies bitstream
    ensures bitstream.Valid()
    ensures value == Unary(bitstream.Source(), old(bitstream.position), limit)
    ensures bitstream.position == old(bitstream.position) + value + if value < limit then 1 else 0
  {
    hide Bzip2Bitstream.Valid, Bzip2Bitstream.Source;
    hide MsbValue;
    value := 0;
    ghost var pos := bitstream.position;
    while value < limit
      invariant bitstream.Valid() && value <= limit
      invariant bitstream.position == pos + value
      invariant Unary(bitstream.Source(), pos, limit) ==
                value + Unary(bitstream.Source(), bitstream.position, limit - value)
    {
      OneBit(MsbFirst, bitstream.Source(), bitstream.position);
      var bit := bitstream.GetValue(1);
      if bit == 0 {
        break;
      }
      value := value + 1;
    }
  }

  lemma NextSelector(done: seq<Byte>, s: seq<Bit>, pos: nat, count: nat, trees: nat, stack: seq<Byte>)
    requires trees <= |stack| && count > 0
    ensures var k := Unary(s, pos, trees);
      if k >= trees then Selectors(s, pos, count, trees, stack) == None
      else After(done, Selectors(s, pos, count, trees, stack)) ==
           After(done + [stack[k]], Selectors(s, pos + k + 1, count - 1, trees, Front(stack, k)))
  {
    var k := Unary(s, pos, trees);
    if k < trees {
      var r := Selectors(s, pos + k + 1, count - 1, trees, Front(stack, k));
      assert Selectors(s, pos, count, trees, stack) == After([stack[k]], r);
      AfterAfter(done, [stack[k]], r);
    }
  }

  lemma NoSelectors(done: seq<Byte>, s: seq<Bit>, pos: nat, trees: nat, stack: seq<Byte>)
    requires trees <= |stack|
    ensures After(done, Selectors(s, pos, 0, trees, stack)) == Some((done, pos))
  {
    AfterEnd(done, pos);
  }

  method ReadSelectors(bitstream: Bzip2Bitstream, selectors: array<Byte>, count: nat, trees: nat) returns (ok: bool)
    requires bitstream.Valid() && trees <= 7 && count <= selectors.Length
    modifies bitstream, selectors
    ensures bitstream.Valid()
    ensures var r := Selectors(bitstream.Source(), old(bitstream.position), count, trees, INITIAL_STACK);
      && ok == r.Some?
      && (ok ==> selectors[..] == r.value.0 + old(selectors[count..]) && bitstream.position == r.value.1)
  {
    hide Bzip2Bitstream.Valid, Bzip2Bitstream.Source, Selectors, After, Unary, Front;
    ghost var s, pos := bitstream.Source(), bitstream.position;
    ghost var all := Selectors(s, pos, count, trees, INITIAL_STACK);
    ghost var done: seq<Byte> := [];
    var stack := new Byte[7](i => i);
    assert stack[..] == INITIAL_STACK;
    AfterNothing(all);
    for selectorIndex := 0 to count
      invariant bitstream.Valid() && stack.Length == 7 && |done| == selectorIndex
      invariant forall i :: 0 <= i < selectorIndex ==> selectors[i] == done[i]
      invariant forall i :: selectorIndex <= i < selectors.Length ==> selectors[i] == old(selectors[i])
      invariant all == After(done, Selectors(s, bitstream.position, count - selectorIndex, trees, stack[..]))
    {
      NextSelector(done, s, bitstream.position, count - selectorIndex, trees, stack[..]);
      var treeIndex := ReadUnaryValue(bitstream, trees);
      if treeIndex >= trees {
        AfterEnd(done, 0);
        return false;
      }
      ghost var before := stack[..];
      var selectorValue := MoveInPlace(stack, treeIndex);
      assert selectorValue == before[treeIndex] && stack[..] == Front(before, treeIndex);
      selectors[selectorIndex] := selectorValue;
      done := done + [selectorValue];
    }
    NoSelectors(done, s, bitstream.position, trees, stack[..]);
    assert selectors[..] == done + old(selectors[count..]);
    ok := true;
  }
}
