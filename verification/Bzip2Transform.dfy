/** The inverse Burrows-Wheeler transform of bzip2 with its run-length output stage. */
module Bzip2Transform {
  import opened Words
  import opened CountingSort
  import opened BurrowsWheeler
  import opened RunLength

  const BLOCK_SIZE: nat := 100000

  /** The row the walk starts at; a pointer past the block lands on the unused, zero part of the table. */
  function StartRow(column: seq<Byte>, origin: nat): nat {
    if origin < |column| then Successors(column)[origin] else 0
  }

  /** The bytes that the inverse transform visits. */
  function Visited(column: seq<Byte>, origin: nat): (r: seq<Byte>)
    ensures |r| == |column|
  {
    Walk(column, Successors(column), StartRow(column, origin), |column|)
  }

  /** What the inverse transform writes for a block. */
  function Output(column: seq<Byte>, origin: nat): seq<Byte> {
    Expand(Visited(column, origin), 0, 0)
  }

  /** Transforming back the transform of any run-length form of a string gives that string. */
  lemma OutputInverts(runs: seq<Byte>, column: seq<Byte>, origin: nat)
    requires |runs| > 0 && Transforms(column, origin, runs)
    ensures Output(column, origin) == Expand(runs, 0, 0)
  {
    InverseTransform(column, origin, runs);
  }

  /** The place of the first byte of the column among the sorted bytes. */
  lemma FirstSuccessor(column: seq<Byte>)
    requires |column| > 0
    ensures Below(column, 0, column[0]) < |column| && Successors(column)[Below(column, 0, column[0])] == 0
  {
    hide Below, Order;
    var keys: seq<nat>, c := column, column[0];
    CountPrefix(keys, c, 0);
    assert Successors(column) == Order(keys, 0, 256);
    OrderAt(keys, 0, 256, c, 0);
    BucketEntry(keys, c, 0);
    var m := Bucket(keys, c)[0];
    if m > 0 {
      CountPrefix(keys[..m], c, 0);
      assert false;
    }
  }

  /** A pointer past the block is not refused: it counts as the number of bytes that are less than the first one. */
  lemma PastBlock(column: seq<Byte>, origin: nat)
    requires 0 < |column| <= origin
    ensures Below(column, 0, column[0]) < |column| && Output(column, origin) == Output(column, Below(column, 0, column[0]))
  {
    hide Below, Successors, Expand;
    FirstSuccessor(column);
  }

  method CountBytes(blockData: array<Byte>, blockDataSize: nat) returns (distributions: array<nat>)
    requires blockDataSize <= blockData.Length
    ensures fresh(distributions) && distributions.Length == 256
    ensures forall c :: 0 <= c < 256 ==> distributions[c] == Count(blockData[..blockDataSize], c)
  {
    distributions := new nat[256](_ => 0);
    ghost var column := blockData[..blockDataSize];
    for i := 0 to blockDataSize
      invariant forall c :: 0 <= c < 256 ==> distributions[c] == Count(column[..i], c)
    {
      forall c: nat ensures Count(column[..i + 1], c) == Count(column[..i], c) + if column[i] == c then 1 else 0 {
        CountNext(column, i, c);
      }
      distributions[blockData[i]] := distributions[blockData[i]] + 1;
    }
    assert column[..blockDataSize] == column;
  }

  /** Replaces the counts by the number of smaller bytes. */
  method StartOffsets(distributions: array<nat>, ghost column: seq<Byte>)
    requires distributions.Length == 256
    requires forall c :: 0 <= c < 256 ==> distributions[c] == Count(column, c)
    modifies distributions
    ensures forall c :: 0 <= c < 256 ==> distributions[c] == Below(column, 0, c)
  {
    hide Count;
    var distributionValue := 0;
    for c := 0 to 256
      invariant distributionValue == Below(column, 0, c)
      invariant forall k :: 0 <= k < c ==> distributions[k] == Below(column, 0, k)
      invariant forall k :: c <= k < 256 ==> distributions[k] == Count(column, k)
    {
      var numberOfValues := distributions[c];
      distributions[c] := distributionValue;
      distributionValue := distributionValue + numberOfValues;
    }
  }

  /** Fills the table of successors; entries past the block stay zero. */
  method FillPermutations(blockData: array<Byte>, blockDataSize: nat, distributions: array<nat>)
    returns (permutations: array<nat>)
    requires blockDataSize <= blockData.Length && blockDataSize <= BLOCK_SIZE
    requires distributions.Length == 256
    requires forall c :: 0 <= c < 256 ==> distributions[c] == Below(blockData[..blockDataSize], 0, c)
    modifies distributions
    ensures fresh(permutations) && permutations.Length == BLOCK_SIZE
    ensures permutations[..blockDataSize] == Successors(blockData[..blockDataSize])
    ensures forall i :: blockDataSize <= i < BLOCK_SIZE ==> permutations[i] == 0
  {
    hide Filled, Below, Count, Successors;
    permutations := new nat[BLOCK_SIZE](_ => 0);
    ghost var column := blockData[..blockDataSize];
    NothingFilled(permutations[..], column, 0, 256);
    for i := 0 to blockDataSize
      invariant permutations.Length == BLOCK_SIZE && blockData[..blockDataSize] == column
      invariant forall c :: 0 <= c < 256 ==> distributions[c] == Below(column, 0, c) + Count(column[..i], c)
      invariant Filled(permutations[..], column, 0, 256, i)
      invariant forall k :: blockDataSize <= k < BLOCK_SIZE ==> permutations[k] == 0
    {
      forall c: nat ensures Count(column[..i + 1], c) == Count(column[..i], c) + if column[i] == c then 1 else 0 {
        CountNext(column, i, c);
      }
      var byteValue := blockData[i];
      assert byteValue == column[i];
      var distributionValue := distributions[byteValue];
      SlotBound(column, 0, 256, i);
      FillStep(permutations[..], column, 0, 256, i);
      ghost var before := permutations[..];
      permutations[distributionValue] := i;
      assert permutations[..] == before[distributionValue := i];
      distributions[byteValue] := distributionValue + 1;
    }
    TableIsSuccessors(permutations[..], column);
    assert permutations[..blockDataSize] == permutations[..][..blockDataSize];
  }

  lemma TableIsSuccessors(table: seq<nat>, column: seq<Byte>)
    requires Filled(table, column, 0, 256, |column|)
    ensures |column| <= |table| && table[..|column|] == Successors(column)
  {
    FilledIsOrder(table, column, 0, 256);
    OrderPermutation(column, 0, 256);
  }

  /** What one visited byte adds to the output. */
  function Chunk(b: Byte, last: Byte, count: nat): seq<Byte> {
    if count == 4 then Repeat(last, b) else [b]
  }

  /** The run state after a visited byte. */
  function NextLast(b: Byte, count: nat): Byte {
    if count == 4 then 0 else b
  }

  function NextCount(b: Byte, last: Byte, count: nat): nat {
    if count == 4 then 0 else if b == last then count + 1 else 1
  }

  /** One step of the walk through the output stage. */
  lemma OutputStep(column: seq<Byte>, next: seq<nat>, p: nat, n: nat, last: Byte, count: nat)
    requires |next| == |column| && (forall i :: 0 <= i < |next| ==> next[i] < |column|) && p < |column| && n > 0
    ensures Expand(Walk(column, next, p, n), last, count) == Chunk(column[p], last, count)
      + Expand(Walk(column, next, next[p], n - 1), NextLast(column[p], count), NextCount(column[p], last, count))
  {
    assert Walk(column, next, p, n)[1..] == Walk(column, next, next[p], n - 1);
  }

  /** Writes the same byte a number of times. */
  method WriteRun(output: array<Byte>, offset: nat, value: Byte, count: nat)
    requires offset + count <= output.Length
    modifies output
    ensures output[..] == old(output[..offset]) + Repeat(value, count) + old(output[offset + count..])
  {
    var remaining: nat := count;
    var position: nat := offset;
    while remaining > 0
      invariant remaining <= count && position == offset + count - remaining
      invariant forall i :: 0 <= i < offset ==> output[i] == old(output[i])
      invariant forall i :: offset <= i < position ==> output[i] == value
      invariant forall i :: position <= i < output.Length ==> output[i] == old(output[i])
    {
      output[position] := value;
      position := position + 1;
      remaining := remaining - 1;
    }
  }

  /** Handles one visited byte. */
  method EmitByte(output: array<Byte>, offset: nat, byteValue: Byte, last: Byte, lastCount: nat)
    returns (ok: bool, endOffset: nat, lastByte: Byte, count: nat)
    requires offset <= output.Length && lastCount <= 4
    modifies output
    ensures ok <==> offset + |Chunk(byteValue, last, lastCount)| <= output.Length
    ensures ok ==> endOffset == offset + |Chunk(byteValue, last, lastCount)|
    ensures ok ==> output[..] == old(output[..offset]) + Chunk(byteValue, last, lastCount) + old(output[endOffset..])
    ensures lastByte == NextLast(byteValue, lastCount) && count == NextCount(byteValue, last, lastCount) <= 4
  {
    lastByte, count, endOffset := last, lastCount, offset;
    if count == 4 {
      ok := byteValue <= output.Length - offset;
      if ok {
        WriteRun(output, offset, lastByte, byteValue);
        endOffset := offset + byteValue;
      }
      lastByte := 0;
      count := 0;
    } else {
      if byteValue != lastByte {
        count := 0;
      }
      lastByte := byteValue;
      count := count + 1;
      ok := offset < output.Length;
      if ok {
        output[offset] := byteValue;
        endOffset := offset + 1;
      }
    }
  }

  method ReverseTransform(blockData: array<Byte>, blockDataSize: nat, originPointer: nat,
                          output: array<Byte>, outputOffset: nat) returns (ok: bool, endOffset: nat)
    requires blockDataSize <= blockData.Length && blockDataSize <= BLOCK_SIZE && originPointer < BLOCK_SIZE
    requires outputOffset <= output.Length && output != blockData
    modifies output
    ensures ok <==> outputOffset + |Output(blockData[..blockDataSize], originPointer)| <= output.Length
    ensures ok ==> endOffset == outputOffset + |Output(blockData[..blockDataSize], originPointer)|
    ensures ok ==> output[..] == old(output[..outputOffset]) + Output(blockData[..blockDataSize], originPointer)
                                 + old(output[endOffset..])
    ensures !ok ==> endOffset == outputOffset
  {
    hide Walk, Expand, Successors, Chunk, NextLast, NextCount;
    ghost var column := blockData[..blockDataSize];
    var distributions := CountBytes(blockData, blockDataSize);
    StartOffsets(distributions, column);
    var permutations := FillPermutations(blockData, blockDataSize, distributions);
    ghost var next := Successors(column);
    ghost var total := Output(column, originPointer);
    ghost var done: seq<Byte> := [];
    var offset: nat := outputOffset;
    var lastByte: Byte := 0;
    var count: nat := 0;
    var row: nat := permutations[originPointer];
    assert originPointer < blockDataSize ==> row == permutations[..blockDataSize][originPointer];
    for i := 0 to blockDataSize
      invariant count <= 4 && (i < blockDataSize ==> row < blockDataSize)
      invariant blockData[..blockDataSize] == column && permutations[..blockDataSize] == next
      invariant offset == outputOffset + |done| <= output.Length
      invariant output[..] == old(output[..outputOffset]) + done + old(output[offset..])
      invariant total == done + Expand(Walk(column, next, row, blockDataSize - i), lastByte, count)
    {
      var byteValue := blockData[row];
      assert byteValue == column[row];
      OutputStep(column, next, row, blockDataSize - i, lastByte, count);
      ghost var chunk := Chunk(byteValue, lastByte, count);
      var fits;
      fits, offset, lastByte, count := EmitByte(output, offset, byteValue, lastByte, count);
      if !fits {
        return false, outputOffset;
      }
      done := done + chunk;
      assert permutations[row] == permutations[..blockDataSize][row];
      row := permutations[row];
    }
    NothingLeft(column, next, row, lastByte, count);
    ok, endOffset := true, offset;
  }

  lemma NothingLeft(column: seq<Byte>, next: seq<nat>, p: nat, last: Byte, count: nat)
    requires |next| == |column| && (forall i :: 0 <= i < |next| ==> next[i] < |column|)
    ensures Expand(Walk(column, next, p, 0), last, count) == []
  {
  }
}
