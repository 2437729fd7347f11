/** The LZNT1 decompressor. */
module Lznt1 {
  import opened Options
  import opened Words
  import opened Lz77
  import opened Lznt1Format

  // ---- The split of a tuple ----

  /** How tuples are taken apart: the three variables of the loop over a block. */
  datatype TupleSplit = TupleSplit(shift: nat, mask: nat, threshold: nat) {

    /** They all follow from the number of bytes written so far. */
    ghost predicate For(p: nat) {
      p <= LARGEST_OFFSET && shift == ShiftFor(p) && mask == Pow2(shift) - 1 && threshold == Reach(shift)
    }

    /** The same, except that the shift may still be too large. */
    ghost predicate AtLeastFor(p: nat) {
      && shift <= 12 && mask == Pow2(shift) - 1 && threshold == Reach(shift)
      && (shift < 12 ==> p > Reach(shift + 1))
    }
  }

  lemma FirstSplit()
    ensures TupleSplit(12, 0x0fff, 16).For(0)
  {
    Pow2Table();
  }

  lemma GrowingOffset(split: TupleSplit, p: nat, q: nat)
    requires split.For(p) && p <= q
    ensures split.AtLeastFor(q)
  {
    hide ShiftFor, Reach, Pow2;
  }

  lemma NextSplit(split: TupleSplit, p: nat)
    requires split.AtLeastFor(p) && p > split.threshold && split.shift > 0
    ensures TupleSplit(split.shift - 1, Shr(split.mask, 1), 2 * split.threshold).AtLeastFor(p)
  {
    assert Pow2(split.shift) == 2 * Pow2(split.shift - 1);
    assert Shr(split.mask, 1) == Shr(split.mask / 2, 0);
    assert Pow2(16 - (split.shift - 1)) == 2 * Pow2(16 - split.shift);
  }

  /** Fails exactly when a block gets too long for any split. */
  method UpdateSplit(split: TupleSplit, ghost before: nat, p: nat) returns (ok: bool, r: TupleSplit)
    requires split.For(before) && before <= p
    ensures ok <==> p <= LARGEST_OFFSET
    ensures ok ==> r.For(p)
  {
    hide Pow2, ShiftFor, Shr, Reach;
    r := split;
    GrowingOffset(split, before, p);
    while p > r.threshold
      invariant r.AtLeastFor(p)
      decreases r.shift
    {
      if r.shift == 0 {
        return false, r;
      }
      NextSplit(r, p);
      r := TupleSplit(r.shift - 1, Shr(r.mask, 1), 2 * r.threshold);
    }
    ShiftUnique(p, r.shift);
    ok := true;
  }

  // ---- Blocks ----

  /** One literal byte or one tuple. */
  method DecompressItem(data: seq<Byte>, pos: nat, isTuple: bool, split: TupleSplit, output: array<Byte>, offset: nat,
                        ghost out: seq<Byte>, ghost start: nat)
    returns (ok: bool, next: nat, endOffset: nat)
    requires |out| == offset <= output.Length && start <= offset && split.For(offset - start)
    requires offset - start <= HALF_OFFSET && forall i :: 0 <= i < |out| ==> output[i] == out[i]
    modifies output
    ensures var spec := Item(data, pos, isTuple, out, start, output.Length);
      && ok == spec.Some?
      && (ok ==> next == spec.value.1 && endOffset == |spec.value.0| && Written(output, spec.value.0))
  {
    hide BitAnd, Shr, Low, ShiftFor, Pow2, CopyMatch;
    ok, next, endOffset := false, pos, offset;
    if isTuple {
      if pos + 2 > |data| {
        return;
      }
      var tuple := Word16(data[pos], data[pos + 1]);
      next := pos + 2;
      AndMask(tuple, split.shift);
      var distance := Shr(tuple, split.shift) + 1;
      var length := BitAnd(tuple, split.mask) + 3;
      NoOverflow(tuple, offset - start);
      assert distance <= 0xffff && length <= 0xffff;
      if distance > offset || length > output.Length - offset {
        return;
      }
      AppendMatch(output, offset, distance, length, out);
      endOffset := offset + length;
    } else {
      if pos >= |data| || offset >= output.Length {
        return;
      }
      output[offset] := data[pos];
      next, endOffset := pos + 1, offset + 1;
    }
    ok := true;
  }

  /** The sums of 16-bit words in a tuple do not overflow, because a block never gets so far that the shift is zero. */
  lemma NoOverflow(tuple: nat, p: nat)
    requires tuple < 0x1_0000 && p <= HALF_OFFSET
    ensures Shr(tuple, ShiftFor(p)) + 1 <= HALF_OFFSET && Low(tuple, ShiftFor(p)) + 3 <= 0x1002
  {
    hide Shr, Low, Shl, Pow2, ShiftFor;
    var shift := ShiftFor(p);
    Growth(p);
    Pow2Monotone(shift, 12);
    Pow2Table();
    ShlPow2(16 - shift, shift);
    ShrBounds(tuple, Pow2(16 - shift), shift);
    Pow2Monotone(16 - shift, 15);
  }

  /** A flag byte's items, up to the end of the block. The shift never runs out. */
  method DecompressGroup(data: seq<Byte>, pos: nat, flags: Byte, split: TupleSplit, output: array<Byte>, offset: nat, f: Frame,
                         ghost out: seq<Byte>)
    returns (ok: bool, next: nat, endOffset: nat, newSplit: TupleSplit)
    requires |out| == offset <= output.Length && f.start <= offset && split.For(offset - f.start)
    requires f.Valid() && f.begin <= pos <= f.end && Bounded(offset - f.start, pos - f.begin)
    requires forall i :: 0 <= i < |out| ==> output[i] == out[i]
    modifies output
    ensures var spec := Group(data, pos, f, flags, 8, out, output.Length);
      && ok == spec.Some?
      && (ok ==> next == spec.value.1 && endOffset == |spec.value.0| && Written(output, spec.value.0))
      && (ok && next < f.end ==> newSplit.For(endOffset - f.start))
  {
    hide Group, Item, TupleSplit.For;
    ok, next, endOffset, newSplit := false, pos, offset, split;
    var n: nat := 8;
    var flagBits: nat := flags;
    ghost var all := Group(data, pos, f, flags, n, out, output.Length);
    ghost var longer: seq<Byte> := out;
    while n > 0
      invariant |longer| == endOffset <= output.Length && f.start <= offset <= endOffset && n <= 8
      invariant Written(output, longer)
      invariant f.begin <= next <= f.end && Bounded(endOffset - f.start, next - f.begin)
      invariant newSplit.For(endOffset - f.start)
      invariant all == Group(data, next, f, flagBits, n, longer, output.Length)
      decreases n
    {
      GroupNext(data, next, f, flagBits, n, longer, output.Length);
      LowestBit(flagBits);
      ghost var spec := Item(data, next, flagBits % 2 == 1, longer, f.start, output.Length);
      ghost var before := endOffset - f.start;
      var done;
      done, next, endOffset := DecompressItem(data, next, BitAnd(flagBits, 1) != 0, newSplit, output, endOffset, longer, f.start);
      if !done {
        return;
      }
      longer := spec.value.0;
      flagBits := Shr(flagBits, 1);
      if next >= f.end {
        ok := true;
        return;
      }
      var updated;
      updated, newSplit := UpdateSplit(newSplit, before, endOffset - f.start);
      if !updated {
        assert false;
      }
      n := n - 1;
    }
    EmptyGroup(data, next, f, flagBits, longer, output.Length);
    ok := true;
  }

  method DecompressBlock(blockSize: nat, data: seq<Byte>, pos: nat, output: array<Byte>, offset: nat, ghost out: seq<Byte>)
    returns (ok: bool, endOffset: nat)
    requires blockSize <= 0x1000
    requires |out| == offset <= output.Length && forall i :: 0 <= i < |out| ==> output[i] == out[i]
    modifies output
    ensures var spec := CompressedBlock(data, pos, Frame(pos, pos + blockSize, offset), out, output.Length);
      && ok == spec.Some?
      && (ok ==> endOffset == |spec.value| && Written(output, spec.value))
  {
    hide Group, CompressedBlock, TupleSplit.For;
    ok, endOffset := false, offset;
    var f := Frame(pos, pos + blockSize, offset);
    var next := pos;
    var split := TupleSplit(12, 0x0fff, 16);
    FirstSplit();
    ghost var all := CompressedBlock(data, pos, f, out, output.Length);
    ghost var longer: seq<Byte> := out;
    while next < f.end && next < |data|
      invariant |longer| == endOffset <= output.Length && offset <= endOffset && Written(output, longer)
      invariant pos <= next && Bounded(endOffset - offset, next - pos)
      invariant next < f.end ==> split.For(endOffset - offset)
      invariant all == CompressedBlock(data, next, f, longer, output.Length)
      decreases f.end - next
    {
      BlockNext(data, next, f, longer, output.Length);
      ghost var spec := Group(data, next + 1, f, data[next], 8, longer, output.Length);
      var done;
      done, next, endOffset, split := DecompressGroup(data, next + 1, data[next], split, output, endOffset, f, longer);
      if !done {
        return;
      }
      longer := spec.value.0;
    }
    BlockNext(data, next, f, longer, output.Length);
    ok := true;
  }

  // ---- All blocks ----

  /** A header: twelve bits of size and the compressed flag. */
  lemma HeaderFields(header: nat)
    requires header < 0x1_0000
    ensures BitAnd(header, 0x0fff) == header % 0x1000
    ensures BitAnd(header, 0x8000) != 0 <==> header >= 0x8000
  {
    hide BitAnd, Low, Shr, Shl;
    Pow2Table();
    AndMask(header, 12);
    Join(header, 12);
    ShiftedBy12(Shr(header, 12));
    TopBit(header, 15);
  }

  lemma ShiftedBy12(x: nat)
    ensures Shl(x, 12) == 0x1000 * x
  {
    Shl8Bits(x);
    ShlShl(x, 8, 4);
    assert Shl(Shl(x, 8), 4) == 2 * Shl(Shl(x, 8), 3);
    assert Shl(Shl(x, 8), 2) == 2 * Shl(Shl(x, 8), 1);
    assert Shl(Shl(x, 8), 1) == 2 * Shl(Shl(x, 8), 0);
  }

  lemma {:induction false} TopBit(x: nat, k: nat)
    requires x < 2 * Pow2(k)
    ensures BitAnd(x, Pow2(k)) != 0 <==> x >= Pow2(k)
  {
    if k > 0 {
      TopBit(x / 2, k - 1);
      assert Pow2(k) / 2 == Pow2(k - 1);
    }
  }

  /** Copies the bytes of a stored block. */
  method CopyStored(data: seq<Byte>, pos: nat, size: nat, output: array<Byte>, offset: nat, ghost out: seq<Byte>)
    requires pos + size <= |data| && |out| == offset && offset + size <= output.Length
    requires forall i :: 0 <= i < |out| ==> output[i] == out[i]
    modifies output
    ensures Written(output, out + data[pos..pos + size])
  {
    for k := 0 to size
      invariant forall i :: 0 <= i < offset ==> output[i] == old(output[i])
      invariant forall i :: offset <= i < offset + k ==> output[i] == data[pos + (i - offset)]
      invariant forall i :: offset + k <= i < output.Length ==> output[i] == old(output[i])
    {
      output[offset + k] := data[pos + k];
    }
  }

  class Lznt1Context {
    var uncompressedDataSize: nat

    constructor ()
      ensures uncompressedDataSize == 0
    {
      uncompressedDataSize := 0;
    }

    /**
     * Succeeds exactly when the data has a meaning. The output then starts with it, whatever the buffer held,
     * and the rest of the buffer is untouched.
     */
    method Decompress(data: seq<Byte>, output: array<Byte>) returns (ok: bool)
      modifies this, output
      ensures var spec := Decompressed(data, output.Length);
        && ok == spec.Some?
        && (ok ==> uncompressedDataSize == |spec.value| && Written(output, spec.value))
    {
      hide Blocks, CompressedBlock, BitAnd;
      ok := false;
      var pos: nat, offset: nat := 0, 0;
      ghost var out: seq<Byte> := [];
      ghost var all := Blocks(data, 0, [], output.Length);
      while pos < |data| && offset < output.Length
        invariant |out| == offset <= output.Length && Written(output, out)
        invariant all == Blocks(data, pos, out, output.Length)
        decreases |data| - pos
      {
        BlocksNext(data, pos, out, output.Length);
        if pos + 2 > |data| {
          return;
        }
        if data[pos] == 0 && data[pos + 1] == 0 {
          break;
        }
        var header := Word16(data[pos], data[pos + 1]);
        HeaderFields(header);
        var blockSize := BitAnd(header, 0x0fff) + 1;
        var isCompressed := BitAnd(header, 0x8000) != 0;
        pos := pos + 2;
        if isCompressed {
          ghost var spec := CompressedBlock(data, pos, Frame(pos, pos + blockSize, offset), out, output.Length);
          var done;
          done, offset := DecompressBlock(blockSize, data, pos, output, offset, out);
          if !done {
            return;
          }
          out := spec.value;
        } else {
          if pos + blockSize > |data| || offset + blockSize > output.Length {
            return;
          }
          CopyStored(data, pos, blockSize, output, offset, out);
          out := out + data[pos..pos + blockSize];
          offset := offset + blockSize;
        }
        pos := pos + blockSize;
      }
      BlocksNext(data, pos, out, output.Length);
      uncompressedDataSize := offset;
      ok := true;
    }
  }
}
