/** The two-level bit map of the bytes that occur in a bzip2 block. */
module Bzip2SymbolStack {
  import opened Words
  import opened Bits
  import opened Bzip2Bitstreams

  // ---- What the bits mean ----

  /** The bytes of group g marked in 16 bits at pos, from entry k on. */
  function Group(s: seq<Bit>, pos: nat, g: nat, k: nat): (r: seq<Byte>)
    requires g < 16 && k <= 16
    ensures |r| <= 16 - k
    decreases 16 - k
  {
    if k == 16 then []
    else (if At(s, pos + k) == 1 then [16 * g + k] else []) + Group(s, pos, g, k + 1)
  }

  /** The marked bytes from group g on: the first level at `levels`, the next second level at pos. */
  function Groups(s: seq<Bit>, levels: nat, pos: nat, g: nat): (r: (seq<Byte>, nat))
    requires g <= 16
    ensures |r.0| <= 16 * (16 - g) && r.1 >= pos
    decreases 16 - g
  {
    if g == 16 then ([], pos)
    else if At(s, levels + g) == 1 then
      var (rest, end) := Groups(s, levels, pos + 16, g + 1);
      (Group(s, pos, g, 0) + rest, end)
    else Groups(s, levels, pos, g + 1)
  }

  /** The bytes in use, in increasing order, and the position after the map. */
  function InUse(s: seq<Bit>, pos: nat): (r: (seq<Byte>, nat))
    ensures |r.0| <= 256 && r.1 >= pos
  {
    Groups(s, pos, pos + 16, 0)
  }

  // ---- The encoder ----

  function UsedGroup(used: seq<bool>, g: nat, k: nat): seq<Byte>
    requires |used| == 256 && g < 16 && k <= 16
    decreases 16 - k
  {
    if k == 16 then []
    else (if used[16 * g + k] then [16 * g + k] else []) + UsedGroup(used, g, k + 1)
  }

  /** The used bytes from group g on, in increasing order. */
  function Used(used: seq<bool>, g: nat): seq<Byte>
    requires |used| == 256 && g <= 16
    decreases 16 - g
  {
    if g == 16 then [] else UsedGroup(used, g, 0) + Used(used, g + 1)
  }

  function BitOf(b: bool): Bit { if b then 1 else 0 }

  function GroupBits(used: seq<bool>, g: nat): (r: seq<Bit>)
    requires |used| == 256 && g < 16
    ensures |r| == 16
  {
    seq<Bit>(16, k requires 0 <= k < 16 => BitOf(used[16 * g + k]))
  }

  /** Groups that may be marked: all that have a used byte, and any others. */
  predicate Marks(used: seq<bool>, groups: seq<bool>)
    requires |used| == 256
  {
    |groups| == 16 && forall g :: 0 <= g < 16 && |UsedGroup(used, g, 0)| > 0 ==> groups[g]
  }

  function LevelBits(groups: seq<bool>): (r: seq<Bit>)
    requires |groups| == 16
    ensures |r| == 16
  {
    seq<Bit>(16, g requires 0 <= g < 16 => BitOf(groups[g]))
  }

  function GroupsBits(used: seq<bool>, groups: seq<bool>, g: nat): seq<Bit>
    requires |used| == 256 && |groups| == 16 && g <= 16
    decreases 16 - g
  {
    if g == 16 then []
    else (if groups[g] then GroupBits(used, g) else []) + GroupsBits(used, groups, g + 1)
  }

  function MapBits(used: seq<bool>, groups: seq<bool>): seq<Bit>
    requires |used| == 256 && |groups| == 16
  {
    LevelBits(groups) + GroupsBits(used, groups, 0)
  }

  lemma {:induction false} ReadGroup(s: seq<Bit>, pos: nat, used: seq<bool>, g: nat, k: nat)
    requires |used| == 256 && g < 16 && k <= 16 && Has(s, pos, GroupBits(used, g))
    ensures Group(s, pos, g, k) == UsedGroup(used, g, k)
    decreases 16 - k
  {
    hide Has, At, GroupBits;
    if k < 16 {
      GroupBit(s, pos, used, g, k);
      ReadGroup(s, pos, used, g, k + 1);
    }
  }

  lemma GroupBit(s: seq<Bit>, pos: nat, used: seq<bool>, g: nat, k: nat)
    requires |used| == 256 && g < 16 && k < 16 && Has(s, pos, GroupBits(used, g))
    ensures At(s, pos + k) == BitOf(used[16 * g + k])
  {
    assert At(s, pos + k) == GroupBits(used, g)[k];
  }

  lemma LevelBit(s: seq<Bit>, levels: nat, groups: seq<bool>, g: nat)
    requires |groups| == 16 && g < 16 && Has(s, levels, LevelBits(groups))
    ensures At(s, levels + g) == BitOf(groups[g])
  {
    assert At(s, levels + g) == LevelBits(groups)[g];
  }

  lemma {:induction false} ReadGroups(s: seq<Bit>, levels: nat, pos: nat, used: seq<bool>, groups: seq<bool>, g: nat)
    requires |used| == 256 && Marks(used, groups) && g <= 16
    requires Has(s, levels, LevelBits(groups)) && Has(s, pos, GroupsBits(used, groups, g))
    ensures Groups(s, levels, pos, g) == (Used(used, g), pos + |GroupsBits(used, groups, g)|)
    decreases 16 - g
  {
    hide Has, Group, UsedGroup, GroupBits, LevelBits;
    if g < 16 {
      LevelBit(s, levels, groups, g);
      if groups[g] {
        HasConcat(s, pos, GroupBits(used, g), GroupsBits(used, groups, g + 1));
        ReadGroup(s, pos, used, g, 0);
        ReadGroups(s, levels, pos + 16, used, groups, g + 1);
      } else {
        assert [] + GroupsBits(used, groups, g + 1) == GroupsBits(used, groups, g + 1);
        ReadGroups(s, levels, pos, used, groups, g + 1);
        assert UsedGroup(used, g, 0) + Used(used, g + 1) == Used(used, g + 1);
      }
    }
  }

  /** The list has exactly the marked bytes from `from` up to `to`, in increasing order. */
  ghost predicate Lists(u: seq<Byte>, used: seq<bool>, from: nat, to: nat)
    requires |used| == 256 && from <= to <= 256
  {
    && (forall i :: 0 <= i < |u| ==> from <= u[i] < to && used[u[i]])
    && (forall i, j :: 0 <= i < j < |u| ==> u[i] < u[j])
    && (forall b: Byte :: from <= b < to && used[b] ==> b in u)
  }

  lemma ListsConcat(u: seq<Byte>, v: seq<Byte>, used: seq<bool>, from: nat, middle: nat, to: nat)
    requires |used| == 256 && from <= middle <= to <= 256
    requires Lists(u, used, from, middle) && Lists(v, used, middle, to)
    ensures Lists(u + v, used, from, to)
  {
  }

  lemma {:induction false} GroupLists(used: seq<bool>, g: nat, k: nat)
    requires |used| == 256 && g < 16 && k <= 16
    ensures Lists(UsedGroup(used, g, k), used, 16 * g + k, 16 * g + 16)
    decreases 16 - k
  {
    hide Lists;
    NoneListed(used, 16 * g + 16);
    if k < 16 {
      GroupLists(used, g, k + 1);
      var first: seq<Byte> := if used[16 * g + k] then [16 * g + k] else [];
      OneListed(used, 16 * g + k);
      ListsConcat(first, UsedGroup(used, g, k + 1), used, 16 * g + k, 16 * g + k + 1, 16 * g + 16);
    }
  }

  lemma OneListed(used: seq<bool>, b: Byte)
    requires |used| == 256
    ensures Lists(if used[b] then [b] else [], used, b, b + 1)
  {
  }

  lemma {:induction false} UsedLists(used: seq<bool>, g: nat)
    requires |used| == 256 && g <= 16
    ensures Lists(Used(used, g), used, 16 * g, 256)
    decreases 16 - g
  {
    hide UsedGroup, Lists;
    if g < 16 {
      GroupLists(used, g, 0);
      UsedLists(used, g + 1);
      ListsConcat(UsedGroup(used, g, 0), Used(used, g + 1), used, 16 * g, 16 * g + 16, 256);
    } else {
      NoneListed(used, 256);
    }
  }

  lemma NoneListed(used: seq<bool>, at: nat)
    requires |used| == 256 && at <= 256
    ensures Lists([], used, at, at)
  {
  }

  /** For every set of bytes, and whichever groups are marked besides, the map reads back to exactly those bytes in order. */
  lemma MapRoundTrip(s: seq<Bit>, pos: nat, used: seq<bool>, groups: seq<bool>)
    requires |used| == 256 && Marks(used, groups) && Has(s, pos, MapBits(used, groups))
    ensures InUse(s, pos) == (Used(used, 0), pos + |MapBits(used, groups)|)
    ensures Lists(InUse(s, pos).0, used, 0, 256)
  {
    hide Has, LevelBits, GroupsBits, Groups, Used, Lists, UsedGroup;
    HasConcat(s, pos, LevelBits(groups), GroupsBits(used, groups, 0));
    ReadGroups(s, pos, pos + 16, used, groups, 0);
    UsedLists(used, 0);
  }

  // ---- Bit masks ----

  lemma {:induction false} MsbBitAt(s: seq<Bit>, pos: nat, n: nat, k: nat)
    requires k < n
    ensures Shr(MsbValue(s, pos, n), n - 1 - k) % 2 == At(s, pos + k)
  {
    if k < n - 1 { MsbBitAt(s, pos, n - 1, k); }
  }

  lemma {:induction false} AndPow2(x: nat, k: nat)
    ensures BitAnd(x, Pow2(k)) != 0 <==> Shr(x, k) % 2 == 1
  {
    if x == 0 {
      LowSmall(0, k);
    } else if k > 0 {
      AndPow2(x / 2, k - 1);
      assert Pow2(k) / 2 == Pow2(k - 1) && Pow2(k) % 2 == 0;
    } else {
      assert BitAnd(x / 2, 0) == 0;
    }
  }

  /** Testing a 16-bit value with a mask that moves down from 0x8000. */
  lemma MaskBit(s: seq<Bit>, pos: nat, k: nat)
    requires k < 16
    ensures BitAnd(MsbValue(s, pos, 16), Pow2(15 - k)) != 0 <==> At(s, pos + k) == 1
  {
    hide BitAnd, MsbValue, Pow2, Shr;
    MsbBitAt(s, pos, 16, k);
    AndPow2(MsbValue(s, pos, 16), 15 - k);
  }

  lemma NextMask(k: nat)
    requires k < 16
    ensures k < 15 ==> Pow2(15 - k) / 2 == Pow2(14 - k)
  {
  }

  // ---- Reading ----

  lemma GroupNext(s: seq<Bit>, pos: nat, g: nat, k: nat, done: seq<Byte>)
    requires g < 16 && k < 16
    ensures done + Group(s, pos, g, k) ==
            (if At(s, pos + k) == 1 then done + [16 * g + k] else done) + Group(s, pos, g, k + 1)
  {
    hide At;
    var rest := Group(s, pos, g, k + 1);
    if At(s, pos + k) == 1 {
      var first: seq<Byte> := [16 * g + k];
      assert Group(s, pos, g, k) == first + rest;
      assert done + (first + rest) == done + first + rest;
    } else {
      assert Group(s, pos, g, k) == [] + rest == rest;
    }
  }

  lemma GroupEnd(s: seq<Bit>, pos: nat, g: nat)
    requires g < 16
    ensures Group(s, pos, g, 16) == []
  {
  }

  /** Appends the marked bytes of one group to the stack. */
  method ReadGroupValues(bitstream: Bzip2Bitstream, symbolStack: array<Byte>, start: nat, g: nat) returns (symbolIndex: nat)
    requires bitstream.Valid() && g < 16 && symbolStack.Length == 256 && start <= 16 * g
    modifies bitstream, symbolStack
    ensures bitstream.Valid() && bitstream.position == old(bitstream.position) + 16
    ensures var group := Group(bitstream.Source(), old(bitstream.position), g, 0);
      symbolIndex == start + |group| && symbolStack[..symbolIndex] == old(symbolStack[..start]) + group
  {
    hide Bzip2Bitstream.Valid, Bzip2Bitstream.Source, MsbValue, BitAnd, Group, Pow2;
    ghost var s, pos := bitstream.Source(), bitstream.position;
    ghost var total := symbolStack[..start] + Group(s, pos, g, 0);
    var value := bitstream.GetValue(16);
    var mask := 0x8000;
    symbolIndex := start;
    Pow2Table();
    for k := 0 to 16
      invariant bitstream.Valid() && bitstream.position == pos + 16 && bitstream.Source() == s
      invariant k < 16 ==> mask == Pow2(15 - k)
      invariant start <= symbolIndex <= start + k
      invariant total == symbolStack[..symbolIndex] + Group(s, pos, g, k)
    {
      MaskBit(s, pos, k);
      NextMask(k);
      GroupNext(s, pos, g, k, symbolStack[..symbolIndex]);
      if BitAnd(value, mask) != 0 {
        ghost var before := symbolStack[..symbolIndex];
        symbolStack[symbolIndex] := 16 * g + k;
        symbolIndex := symbolIndex + 1;
        assert symbolStack[..symbolIndex] == before + [16 * g + k];
      }
      mask := mask / 2;
    }
    GroupEnd(s, pos, g);
  }

  /** The number of symbols of the block: the bytes in use, one more run symbol and the end symbol. */
  method ReadSymbolStack(bitstream: Bzip2Bitstream, symbolStack: array<Byte>) returns (numberOfSymbols: nat)
    requires bitstream.Valid() && symbolStack.Length == 256
    modifies bitstream, symbolStack
    ensures bitstream.Valid()
    ensures var (bytes, end) := InUse(bitstream.Source(), old(bitstream.position));
      numberOfSymbols == |bytes| + 2 && symbolStack[..|bytes|] == bytes && bitstream.position == end
  {
    hide Bzip2Bitstream.Valid, Bzip2Bitstream.Source, MsbValue, BitAnd, Group, InUse, Groups, Pow2;
    ghost var s, pos := bitstream.Source(), bitstream.position;
    ghost var total := InUse(s, pos);
    StartGroups(s, pos);
    var value := bitstream.GetValue(16);
    var mask := 0x8000;
    var symbolIndex: nat := 0;
    Pow2Table();
    for g := 0 to 16
      invariant bitstream.Valid() && bitstream.Source() == s
      invariant g < 16 ==> mask == Pow2(15 - g)
      invariant symbolIndex <= 16 * g
      invariant total.0 == symbolStack[..symbolIndex] + Groups(s, pos, bitstream.position, g).0
      invariant total.1 == Groups(s, pos, bitstream.position, g).1
    {
      MaskBit(s, pos, g);
      NextMask(g);
      GroupsNext(s, pos, bitstream.position, g, symbolStack[..symbolIndex]);
      if BitAnd(value, mask) != 0 {
        symbolIndex := ReadGroupValues(bitstream, symbolStack, symbolIndex, g);
      }
      mask := mask / 2;
    }
    EndGroups(s, pos, bitstream.position);
    numberOfSymbols := symbolIndex + 2;
  }

  lemma StartGroups(s: seq<Bit>, pos: nat)
    ensures InUse(s, pos) == Groups(s, pos, pos + 16, 0)
  {
    hide Groups;
  }

  lemma EndGroups(s: seq<Bit>, levels: nat, pos: nat)
    ensures Groups(s, levels, pos, 16) == ([], pos)
  {
  }

  lemma GroupsNext(s: seq<Bit>, levels: nat, pos: nat, g: nat, done: seq<Byte>)
    requires g < 16
    ensures At(s, levels + g) == 1 ==>
      && done + Groups(s, levels, pos, g).0 == done + Group(s, pos, g, 0) + Groups(s, levels, pos + 16, g + 1).0
      && Groups(s, levels, pos, g).1 == Groups(s, levels, pos + 16, g + 1).1
    ensures At(s, levels + g) == 0 ==> Groups(s, levels, pos, g) == Groups(s, levels, pos, g + 1)
  {
    hide Group;
  }
}
