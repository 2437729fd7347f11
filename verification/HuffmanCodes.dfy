/**
 * Canonical Huffman codes (section 3.2.2 of RFC 1951): which code-size lists are acceptable, the code
 * of every symbol, and what decoding a bit stream means.
 */
module HuffmanCodes {
  import opened Options
  import opened Words
  import opened Bits
  import opened CountingSort

  // ---- Acceptable code sizes ----

  /** Kraft sum of the non-zero sizes in units of 2^-largest. */
  function Kraft(sizes: seq<nat>, largest: nat): nat
    requires forall i :: 0 <= i < |sizes| ==> sizes[i] <= largest
  {
    if |sizes| == 0 then 0
    else
      var last := sizes[|sizes| - 1];
      Kraft(sizes[..|sizes| - 1], largest) + if last == 0 then 0 else Pow2(largest - last)
  }

  ghost predicate Acceptable(sizes: seq<nat>, largest: nat) {
    && |sizes| <= 65535
    && (forall i :: 0 <= i < |sizes| ==> sizes[i] <= largest)
    && (exists i :: 0 <= i < |sizes| && sizes[i] != 0)
    && Kraft(sizes, largest) <= Pow2(largest)
  }

  /** Every bit string of the largest size starts with a code. */
  ghost predicate Complete(sizes: seq<nat>, largest: nat) {
    Acceptable(sizes, largest) && Kraft(sizes, largest) == Pow2(largest)
  }

  /** Codes of k bits that are still free after handing out all codes of up to k bits. */
  function Left(sizes: seq<nat>, k: nat): int {
    if k == 0 then 1 else 2 * Left(sizes, k - 1) - Count(sizes, k)
  }

  /** Codes of one size from entry `from` on. */
  lemma {:induction false} KraftRun(sizes: seq<nat>, from: nat, size: nat, largest: nat)
    requires forall i :: 0 <= i < |sizes| ==> sizes[i] <= largest
    requires from <= |sizes| && 0 < size <= largest && forall i :: from <= i < |sizes| ==> sizes[i] == size
    ensures Kraft(sizes, largest) == Kraft(sizes[..from], largest) + Copies(|sizes| - from, Pow2(largest - size))
    decreases |sizes|
  {
    hide Pow2, Copies;
    if from == |sizes| {
      assert sizes[..from] == sizes;
      NoCopies(Pow2(largest - size));
    } else {
      var n := |sizes| - 1;
      KraftRun(sizes[..n], from, size, largest);
      assert sizes[..n][..from] == sizes[..from];
      OneMoreCopy(n - from, Pow2(largest - size));
    }
  }

  lemma NoSizes(largest: nat)
    ensures Kraft([], largest) == 0
  {
  }

  function Copies(n: nat, unit: nat): nat {
    n * unit
  }

  lemma NoCopies(unit: nat)
    ensures Copies(0, unit) == 0
  {
  }

  lemma OneMoreCopy(n: nat, unit: nat)
    ensures Copies(n + 1, unit) == Copies(n, unit) + unit
  {
  }

  // ---- Codes ----

  /** Smallest code of k bits. */
  function FirstCode(sizes: seq<nat>, k: nat): nat {
    if k <= 1 then 0 else 2 * (FirstCode(sizes, k - 1) + Count(sizes, k - 1))
  }

  /** Codes of one size are handed out in symbol order. */
  function CodeOf(sizes: seq<nat>, symbol: nat): nat
    requires symbol < |sizes|
  {
    FirstCode(sizes, sizes[symbol]) + Count(sizes[..symbol], sizes[symbol])
  }

  function CodeBits(sizes: seq<nat>, symbol: nat): (b: seq<Bit>)
    requires symbol < |sizes|
    ensures |b| == sizes[symbol]
  {
    MsbBits(CodeOf(sizes, symbol), sizes[symbol])
  }

  /** The stream continues with the code of the symbol. */
  ghost predicate IsCodeAt(sizes: seq<nat>, s: seq<Bit>, pos: nat, symbol: nat) {
    symbol < |sizes| && sizes[symbol] > 0 && Has(s, pos, CodeBits(sizes, symbol))
  }

  ghost predicate SomeCodeAt(sizes: seq<nat>, s: seq<Bit>, pos: nat) {
    exists symbol: nat :: IsCodeAt(sizes, s, pos, symbol)
  }

  /** The symbol whose code comes next, if any. */
  ghost function Decode(sizes: seq<nat>, s: seq<Bit>, pos: nat): (r: Option<nat>)
    ensures r.Some? ==> IsCodeAt(sizes, s, pos, r.value)
    ensures r.None? ==> !SomeCodeAt(sizes, s, pos)
  {
    if SomeCodeAt(sizes, s, pos) then
      var symbol: nat :| IsCodeAt(sizes, s, pos, symbol);
      Some(symbol)
    else None
  }

  // ---- Kraft sum and the running check of the decoder ----

  lemma {:induction false} LeftSnoc(sizes: seq<nat>, c: nat, k: nat)
    ensures Left(sizes + [c], k) == Left(sizes, k) - if 1 <= c <= k then Pow2(k - c) else 0
  {
    if k > 0 {
      LeftSnoc(sizes, c, k - 1);
      assert (sizes + [c])[..|sizes|] == sizes;
    }
  }

  lemma {:induction false} LeftEmpty(k: nat)
    ensures Left([], k) == Pow2(k)
  {
    if k > 0 { LeftEmpty(k - 1); }
  }

  /** What is left at the largest size is what the Kraft sum leaves. */
  lemma {:induction false} LeftIsKraft(sizes: seq<nat>, largest: nat)
    requires forall i :: 0 <= i < |sizes| ==> sizes[i] <= largest
    ensures Left(sizes, largest) == Pow2(largest) - Kraft(sizes, largest)
  {
    if |sizes| == 0 {
      assert sizes == [];
      LeftEmpty(largest);
    } else {
      var n := |sizes| - 1;
      LeftIsKraft(sizes[..n], largest);
      LeftSnoc(sizes[..n], sizes[n], largest);
      assert sizes[..n] + [sizes[n]] == sizes;
    }
  }

  /** Once over-subscribed, always over-subscribed. */
  lemma {:induction false} LeftStaysNegative(sizes: seq<nat>, j: nat, k: nat)
    requires j <= k && Left(sizes, j) < 0
    ensures Left(sizes, k) < 0
    decreases k
  {
    if j < k { LeftStaysNegative(sizes, j, k - 1); }
  }

  lemma {:induction false} LeftIsFree(sizes: seq<nat>, k: nat)
    requires k >= 1
    ensures Left(sizes, k) == Pow2(k) - FirstCode(sizes, k) - Count(sizes, k)
  {
    if k > 1 {
      LeftIsFree(sizes, k - 1);
    } else {
      assert Left(sizes, 0) == 1;
    }
  }

  /** Codes of k bits fit k bits. */
  lemma CodesFit(sizes: seq<nat>, largest: nat, k: nat)
    requires Acceptable(sizes, largest) && 1 <= k <= largest
    ensures FirstCode(sizes, k) + Count(sizes, k) <= Pow2(k)
  {
    LeftIsKraft(sizes, largest);
    LeftIsFree(sizes, k);
    if Left(sizes, k) < 0 {
      LeftStaysNegative(sizes, k, largest);
    }
  }

  lemma CodeFits(sizes: seq<nat>, largest: nat, symbol: nat)
    requires Acceptable(sizes, largest) && symbol < |sizes| && sizes[symbol] > 0
    ensures CodeOf(sizes, symbol) < FirstCode(sizes, sizes[symbol]) + Count(sizes, sizes[symbol])
    ensures CodeOf(sizes, symbol) < Pow2(sizes[symbol])
  {
    CodesFit(sizes, largest, sizes[symbol]);
    CountPrefix(sizes, sizes[symbol], symbol);
  }

  /** A code comes next exactly when the next bits, as a number, are that code. */
  lemma CodeAtIsValue(sizes: seq<nat>, largest: nat, s: seq<Bit>, pos: nat, symbol: nat)
    requires Acceptable(sizes, largest) && symbol < |sizes| && sizes[symbol] > 0
    ensures IsCodeAt(sizes, s, pos, symbol) <==> MsbValue(s, pos, sizes[symbol]) == CodeOf(sizes, symbol)
  {
    CodeFits(sizes, largest, symbol);
    if IsCodeAt(sizes, s, pos, symbol) {
      ReadMsbExact(s, pos, CodeOf(sizes, symbol), sizes[symbol]);
    }
    HasMsbValue(s, pos, sizes[symbol]);
  }

  // ---- Codes are prefix free ----

  /** Codes of j bits, extended to k bits, lie below the codes of k bits. */
  lemma {:induction false} CodesNested(sizes: seq<nat>, j: nat, k: nat)
    requires 1 <= j < k
    ensures Shl(FirstCode(sizes, j) + Count(sizes, j), k - j) <= FirstCode(sizes, k)
    decreases k
  {
    if j < k - 1 {
      CodesNested(sizes, j, k - 1);
    } else {
      assert Shl(FirstCode(sizes, j) + Count(sizes, j), 1) == 2 * (FirstCode(sizes, j) + Count(sizes, j)) by {
        assert Shl(FirstCode(sizes, j) + Count(sizes, j), 0) == FirstCode(sizes, j) + Count(sizes, j);
      }
    }
  }

  lemma NoLongerCode(sizes: seq<nat>, largest: nat, s: seq<Bit>, pos: nat, a: nat, b: nat)
    requires Acceptable(sizes, largest) && IsCodeAt(sizes, s, pos, a) && b < |sizes| && sizes[a] < sizes[b]
    ensures !IsCodeAt(sizes, s, pos, b)
  {
    var j, k := sizes[a], sizes[b];
    CodeAtIsValue(sizes, largest, s, pos, a);
    CodeAtIsValue(sizes, largest, s, pos, b);
    CodeFits(sizes, largest, a);
    CodesNested(sizes, j, k);
    var v := MsbValue(s, pos, j);
    MsbSplit(s, pos, j, k - j);
    ShlAdd(v, 1, k - j);
    ShlOne(k - j);
    ShlMonotone(v + 1, FirstCode(sizes, j) + Count(sizes, j), k - j);
  }

  /** At most one symbol's code comes next. */
  lemma PrefixFree(sizes: seq<nat>, largest: nat, s: seq<Bit>, pos: nat, a: nat, b: nat)
    requires Acceptable(sizes, largest) && IsCodeAt(sizes, s, pos, a) && IsCodeAt(sizes, s, pos, b)
    ensures a == b
  {
    if sizes[a] < sizes[b] {
      NoLongerCode(sizes, largest, s, pos, a, b);
    } else if sizes[b] < sizes[a] {
      NoLongerCode(sizes, largest, s, pos, b, a);
    } else {
      CodeAtIsValue(sizes, largest, s, pos, a);
      CodeAtIsValue(sizes, largest, s, pos, b);
      if a < b {
        assert sizes[..b][..a] == sizes[..a];
        CountPrefix(sizes[..b], sizes[a], a);
      } else if b < a {
        assert sizes[..a][..b] == sizes[..b];
        CountPrefix(sizes[..a], sizes[b], b);
      }
    }
  }

  /** Decoding a stream that starts with the code of a symbol gives that symbol. */
  lemma DecodeCode(sizes: seq<nat>, largest: nat, s: seq<Bit>, pos: nat, symbol: nat)
    requires Acceptable(sizes, largest) && IsCodeAt(sizes, s, pos, symbol)
    ensures Decode(sizes, s, pos) == Some(symbol)
  {
    assert SomeCodeAt(sizes, s, pos);
    PrefixFree(sizes, largest, s, pos, symbol, Decode(sizes, s, pos).value);
  }

  // ---- One step of bit-by-bit decoding ----

  /** A k-bit value in the range of the k-bit codes is the code of an entry of bucket k. */
  lemma CodeHit(sizes: seq<nat>, largest: nat, s: seq<Bit>, pos: nat, k: nat) returns (symbol: nat)
    requires Acceptable(sizes, largest) && 1 <= k <= largest
    requires FirstCode(sizes, k) <= MsbValue(s, pos, k) < FirstCode(sizes, k) + Count(sizes, k)
    ensures IsCodeAt(sizes, s, pos, symbol) && sizes[symbol] == k
    ensures Slot(sizes, 1, symbol) == Below(sizes, 1, k) + (MsbValue(s, pos, k) - FirstCode(sizes, k))
  {
    var r := MsbValue(s, pos, k) - FirstCode(sizes, k);
    BucketLength(sizes, k);
    BucketEntry(sizes, k, r);
    symbol := Bucket(sizes, k)[r];
    CodeAtIsValue(sizes, largest, s, pos, symbol);
  }

  /** A k-bit value above the k-bit codes is not the code of any symbol of size k. */
  lemma CodeMiss(sizes: seq<nat>, largest: nat, s: seq<Bit>, pos: nat, k: nat, symbol: nat)
    requires Acceptable(sizes, largest) && 1 <= k <= largest
    requires MsbValue(s, pos, k) >= FirstCode(sizes, k) + Count(sizes, k)
    requires symbol < |sizes| && sizes[symbol] == k
    ensures !IsCodeAt(sizes, s, pos, symbol)
  {
    CodeAtIsValue(sizes, largest, s, pos, symbol);
    CodeFits(sizes, largest, symbol);
  }

  /** No symbol with a size below k has its code at pos. */
  ghost predicate NoCodeBelow(sizes: seq<nat>, s: seq<Bit>, pos: nat, k: nat) {
    forall symbol: nat :: symbol < |sizes| && sizes[symbol] < k ==> !IsCodeAt(sizes, s, pos, symbol)
  }

  /** The values that one more bit of a code brings. */
  lemma NextSize(sizes: seq<nat>, s: seq<Bit>, pos: nat, k: nat)
    requires k >= 1
    ensures MsbValue(s, pos, k) == 2 * MsbValue(s, pos, k - 1) + At(s, pos + k - 1)
    ensures FirstCode(sizes, k + 1) == 2 * (FirstCode(sizes, k) + Count(sizes, k))
    ensures Below(sizes, 1, k + 1) == Below(sizes, 1, k) + Count(sizes, k)
  {
  }

  lemma MissStep(sizes: seq<nat>, largest: nat, s: seq<Bit>, pos: nat, k: nat)
    requires Acceptable(sizes, largest) && 1 <= k <= largest && NoCodeBelow(sizes, s, pos, k)
    requires MsbValue(s, pos, k) >= FirstCode(sizes, k) + Count(sizes, k)
    ensures NoCodeBelow(sizes, s, pos, k + 1)
  {
    forall symbol: nat | symbol < |sizes| && sizes[symbol] == k
      ensures !IsCodeAt(sizes, s, pos, symbol)
    {
      CodeMiss(sizes, largest, s, pos, k, symbol);
    }
  }

  lemma NothingFits(sizes: seq<nat>, largest: nat, s: seq<Bit>, pos: nat)
    requires Acceptable(sizes, largest) && NoCodeBelow(sizes, s, pos, largest + 1)
    ensures Decode(sizes, s, pos) == None
  {
  }

  /** A symbol table filled for the sizes has the symbol of a hit at the expected index. */
  lemma HitSymbol(table: seq<nat>, sizes: seq<nat>, largest: nat, s: seq<Bit>, pos: nat, k: nat)
    requires Acceptable(sizes, largest) && 1 <= k <= largest
    requires FirstCode(sizes, k) <= MsbValue(s, pos, k) < FirstCode(sizes, k) + Count(sizes, k)
    requires Filled(table, sizes, 1, largest + 1, |sizes|)
    ensures var index := Below(sizes, 1, k) + (MsbValue(s, pos, k) - FirstCode(sizes, k));
      index < |table| && table[index] < |sizes| && sizes[table[index]] == k &&
      Decode(sizes, s, pos) == Some(table[index])
  {
    var symbol := CodeHit(sizes, largest, s, pos, k);
    DecodeCode(sizes, largest, s, pos, symbol);
  }

  // ---- Complete codes never fail ----

  lemma {:induction false} CodeFrom(sizes: seq<nat>, largest: nat, s: seq<Bit>, pos: nat, k: nat) returns (symbol: nat)
    requires Complete(sizes, largest) && 1 <= k <= largest
    requires MsbValue(s, pos, k) >= FirstCode(sizes, k)
    ensures IsCodeAt(sizes, s, pos, symbol)
    decreases largest - k
  {
    if MsbValue(s, pos, k) < FirstCode(sizes, k) + Count(sizes, k) {
      symbol := CodeHit(sizes, largest, s, pos, k);
    } else {
      if k == largest {
        LeftIsKraft(sizes, largest);
        LeftIsFree(sizes, largest);
      }
      symbol := CodeFrom(sizes, largest, s, pos, k + 1);
    }
  }

  /** With Kraft sum one some code comes next in every stream. */
  lemma CompleteDecodes(sizes: seq<nat>, largest: nat, s: seq<Bit>, pos: nat)
    requires Complete(sizes, largest)
    ensures Decode(sizes, s, pos).Some?
  {
    var i :| 0 <= i < |sizes| && sizes[i] != 0;
    var symbol := CodeFrom(sizes, largest, s, pos, 1);
    assert SomeCodeAt(sizes, s, pos);
  }

  // ---- The two rules of section 3.2.2 of RFC 1951 ----

  /** Codes of one size are consecutive in the order of the symbols, and shorter codes come before longer ones. */
  lemma Canonical(sizes: seq<nat>, a: nat, b: nat)
    requires a < |sizes| && b < |sizes| && sizes[a] > 0 && sizes[b] > 0
    ensures sizes[a] == sizes[b] && a < b ==>
      CodeOf(sizes, b) - CodeOf(sizes, a) == Count(sizes[..b], sizes[a]) - Count(sizes[..a], sizes[a]) >= 1
    ensures sizes[a] < sizes[b] ==> Shl(CodeOf(sizes, a) + 1, sizes[b] - sizes[a]) <= CodeOf(sizes, b)
  {
    hide Count, FirstCode, Shl;
    if sizes[a] == sizes[b] && a < b {
      CountPrefix(sizes[..b], sizes[a], a);
      assert sizes[..b][..a] == sizes[..a];
    }
    if sizes[a] < sizes[b] {
      CountPrefix(sizes, sizes[a], a);
      CodesNested(sizes, sizes[a], sizes[b]);
      ShlMonotone(CodeOf(sizes, a) + 1, FirstCode(sizes, sizes[a]) + Count(sizes, sizes[a]), sizes[b] - sizes[a]);
    }
  }

  /** The smallest code is all zeros. */
  lemma {:induction false} SmallestCode(sizes: seq<nat>, k: nat)
    requires forall j :: 1 <= j < k ==> Count(sizes, j) == 0
    ensures FirstCode(sizes, k) == 0
  {
    hide Count;
    if k > 1 { SmallestCode(sizes, k - 1); }
  }

  /** The example of the RFC: eight symbols of sizes 3, 3, 3, 3, 3, 2, 4 and 4. */
  lemma RfcExample()
    ensures var sizes := [3, 3, 3, 3, 3, 2, 4, 4];
      && CodeOf(sizes, 0) == 2 && CodeOf(sizes, 1) == 3 && CodeOf(sizes, 2) == 4 && CodeOf(sizes, 3) == 5
      && CodeOf(sizes, 4) == 6 && CodeOf(sizes, 5) == 0 && CodeOf(sizes, 6) == 14 && CodeOf(sizes, 7) == 15
  {
    var sizes: seq<nat> := [3, 3, 3, 3, 3, 2, 4, 4];
    ExampleCounts(sizes);
    hide Count;
    assert FirstCode(sizes, 1) == 0 && FirstCode(sizes, 2) == 0 && FirstCode(sizes, 3) == 2 && FirstCode(sizes, 4) == 14;
  }

  lemma ExampleCounts(sizes: seq<nat>)
    requires sizes == [3, 3, 3, 3, 3, 2, 4, 4]
    ensures Count(sizes, 1) == 0 && Count(sizes, 2) == 1 && Count(sizes, 3) == 5
    ensures Count(sizes[..0], 3) == 0 && Count(sizes[..1], 3) == 1 && Count(sizes[..2], 3) == 2 && Count(sizes[..3], 3) == 3
    ensures Count(sizes[..4], 3) == 4 && Count(sizes[..5], 2) == 0 && Count(sizes[..6], 4) == 0 && Count(sizes[..7], 4) == 1
  {
    hide Count;
    NoCount();
    assert sizes[..8] == sizes;
    forall k | 1 <= k <= 4
      ensures Count(sizes[..5], k) == (if k == 3 then 5 else 0)
      ensures Count(sizes[..0], k) == 0 && k == 3 ==> forall j :: 0 <= j < 5 ==> Count(sizes[..j], k) == j
      ensures Count(sizes[..6], k) == Count(sizes[..5], k) + (if k == 2 then 1 else 0)
      ensures Count(sizes[..7], k) == Count(sizes[..6], k) + (if k == 4 then 1 else 0)
      ensures Count(sizes[..8], k) == Count(sizes[..7], k) + (if k == 4 then 1 else 0)
    {
      CountNext(sizes, 0, k);
      CountNext(sizes, 1, k);
      CountNext(sizes, 2, k);
      CountNext(sizes, 3, k);
      CountNext(sizes, 4, k);
      CountNext(sizes, 5, k);
      CountNext(sizes, 6, k);
      CountNext(sizes, 7, k);
    }
  }

  lemma NoCount()
    ensures forall k :: Count([], k) == 0
  {
  }

  // ---- Sequences of symbols ----

  /** Symbols that have a code. */
  ghost predicate Encodable(sizes: seq<nat>, symbols: seq<nat>) {
    forall i :: 0 <= i < |symbols| ==> symbols[i] < |sizes| && sizes[symbols[i]] > 0
  }

  function Encode(sizes: seq<nat>, symbols: seq<nat>): seq<Bit>
    requires forall i :: 0 <= i < |symbols| ==> symbols[i] < |sizes|
  {
    if |symbols| == 0 then [] else CodeBits(sizes, symbols[0]) + Encode(sizes, symbols[1..])
  }

  /** Decodes n symbols one after another. */
  ghost function DecodeMany(sizes: seq<nat>, s: seq<Bit>, pos: nat, n: nat): Option<seq<nat>>
    decreases n
  {
    if n == 0 then Some([])
    else
      match Decode(sizes, s, pos)
      case None => None
      case Some(symbol) =>
        match DecodeMany(sizes, s, pos + sizes[symbol], n - 1)
        case None => None
        case Some(rest) => Some([symbol] + rest)
  }

  /** Any concatenation of codes decodes back. */
  lemma {:induction false} DecodeEncoded(sizes: seq<nat>, largest: nat, s: seq<Bit>, pos: nat, symbols: seq<nat>)
    requires Acceptable(sizes, largest) && Encodable(sizes, symbols)
    requires Has(s, pos, Encode(sizes, symbols))
    ensures DecodeMany(sizes, s, pos, |symbols|) == Some(symbols)
    decreases |symbols|
  {
    if |symbols| > 0 {
      HasConcat(s, pos, CodeBits(sizes, symbols[0]), Encode(sizes, symbols[1..]));
      DecodeCode(sizes, largest, s, pos, symbols[0]);
      DecodeEncoded(sizes, largest, s, pos + sizes[symbols[0]], symbols[1..]);
      assert symbols == [symbols[0]] + symbols[1..];
    }
  }
}
