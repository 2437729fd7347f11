/** Adler-32 (sections 2.2 and 8.2 of RFC 1950) with the modulo operation delayed over 5552 bytes. */
module Adler32 {
  import opened Words

  const BASE: nat := 65521
  const BATCH: nat := 5552

  // ---- Definition ----

  function Mod(x: nat): (r: nat)
    ensures r < BASE
  {
    x % BASE
  }

  /** The two running sums after the data, reduced after every byte. */
  function Sums(a: nat, b: nat, data: seq<Byte>): (r: (nat, nat)) {
    if |data| == 0 then (a, b)
    else
      var (a', b') := Sums(a, b, data[..|data| - 1]);
      var a'' := Mod(a' + data[|data| - 1]);
      (a'', Mod(b' + a''))
  }

  /** A checksum word is the second sum above the first. */
  function Word(sums: (nat, nat)): nat {
    sums.1 * 65536 + sums.0
  }

  function Halves(checksum: nat): (nat, nat) {
    (checksum % 65536, checksum / 65536)
  }

  ghost predicate Reduced(checksum: nat) {
    Halves(checksum).0 < BASE && Halves(checksum).1 < BASE
  }

  /** The checksum of more data, as RFC 1950 defines it per byte. */
  function Checksum(checksum: nat, data: seq<Byte>): nat {
    var (a, b) := Halves(checksum);
    Word(Sums(a, b, data))
  }

  // ---- Unreduced sums of one batch ----

  function RawA(a: nat, data: seq<Byte>): nat {
    if |data| == 0 then a else RawA(a, data[..|data| - 1]) + data[|data| - 1]
  }

  function RawB(a: nat, b: nat, data: seq<Byte>): nat {
    if |data| == 0 then b else RawB(a, b, data[..|data| - 1]) + RawA(a, data)
  }

  /** Largest unreduced second sum after n bytes, whatever two 16-bit halves it started from. */
  function Largest(n: nat): nat {
    if n == 0 then 65535 else Largest(n - 1) + 65535 + 255 * n
  }

  lemma {:induction false} RawBound(a: nat, b: nat, data: seq<Byte>)
    requires a <= 65535 && b <= 65535
    ensures RawA(a, data) <= 65535 + 255 * |data|
    ensures RawB(a, b, data) <= Largest(|data|)
  {
    if |data| > 0 { RawBound(a, b, data[..|data| - 1]); }
  }

  lemma {:induction false} LargestClosed(n: nat)
    ensures 2 * Largest(n) == 131070 * (n + 1) + 255 * (n * (n + 1))
  {
    if n > 0 {
      LargestClosed(n - 1);
      assert n * (n + 1) == (n - 1) * n + 2 * n;
    }
  }

  lemma {:induction false} LargestMonotone(m: nat, n: nat)
    requires m <= n
    ensures Largest(m) <= Largest(n)
    decreases n
  {
    if m < n { LargestMonotone(m, n - 1); }
  }

  /** Within one batch no 32-bit addition wraps. */
  lemma NoWrap(a: nat, b: nat, data: seq<Byte>)
    requires a <= 65535 && b <= 65535 && |data| <= BATCH
    ensures RawA(a, data) < U32_SIZE && RawB(a, b, data) < U32_SIZE
  {
    RawBound(a, b, data);
    LargestMonotone(|data|, BATCH);
    LargestClosed(BATCH);
  }

  /** Reducing once at the end is reducing after every byte. */
  lemma {:induction false} RawIsSums(a: nat, b: nat, data: seq<Byte>)
    ensures Mod(Sums(a, b, data).0) == Mod(RawA(a, data))
    ensures Mod(Sums(a, b, data).1) == Mod(RawB(a, b, data))
  {
    hide Mod;
    if |data| > 0 {
      var n := |data| - 1;
      RawIsSums(a, b, data[..n]);
      var (a', b') := Sums(a, b, data[..n]);
      ModSum(a', RawA(a, data[..n]), data[n], data[n]);
      ModMod(a' + data[n]);
      ModSum(b', RawB(a, b, data[..n]), Mod(a' + data[n]), RawA(a, data));
      ModMod(b' + Mod(a' + data[n]));
    }
  }

  lemma ModSum(x: nat, y: nat, u: nat, v: nat)
    requires Mod(x) == Mod(y) && Mod(u) == Mod(v)
    ensures Mod(x + u) == Mod(y + v)
  {
    Multiple(x / BASE + u / BASE, x % BASE + u % BASE);
    Multiple(y / BASE + v / BASE, y % BASE + v % BASE);
  }

  lemma ModMod(x: nat)
    ensures Mod(Mod(x)) == Mod(x)
  {
  }

  lemma Multiple(q: nat, x: nat)
    ensures Mod(q * BASE + x) == Mod(x)
  {
    var k, r := x / BASE, x % BASE;
    assert q * BASE + x == (q + k) * BASE + r;
  }

  /** 2^16 is 15 modulo 65521. */
  lemma Fold(value: nat)
    ensures Mod(value % 65536 + 15 * (value / 65536)) == Mod(value)
  {
    Multiple(value / 65536, value % 65536 + 15 * (value / 65536));
  }

  lemma {:induction false} SumsAppend(a: nat, b: nat, x: seq<Byte>, y: seq<Byte>)
    ensures var (a', b') := Sums(a, b, x); Sums(a, b, x + y) == Sums(a', b', y)
  {
    hide Mod;
    if |y| == 0 {
      assert x + y == x;
    } else {
      var n := |y| - 1;
      SumsAppend(a, b, x, y[..n]);
      assert (x + y)[..|x| + n] == x + y[..n];
    }
  }

  lemma SumsReduced(a: nat, b: nat, data: seq<Byte>)
    requires |data| > 0 || (a < BASE && b < BASE)
    ensures Sums(a, b, data).0 < BASE && Sums(a, b, data).1 < BASE
  {
  }

  // ---- The context ----

  /** The exact remainder of a 32-bit value, using 2^16 == 15 modulo 65521. */
  function Mod65521(value: nat): (r: nat)
    requires value < U32_SIZE
    ensures r == value % BASE
  {
    Fold(value);
    var high := value / 65536;
    var folded := value % 65536 + (high * 16 - high);
    Fold(folded);
    var folded2 :=
      if folded > 65521 then
        var high2 := folded / 65536;
        folded % 65536 + (high2 * 16 - high2)
      else folded;
    if folded2 >= 65521 then folded2 - 65521 else folded2
  }

  function WrappingAdd(x: nat, y: nat): nat {
    (x + y) % U32_SIZE
  }

  class Adler32Context {
    const initialValue: nat
    var checksum: nat

    /** What was fed since the last result. */
    ghost var fed: seq<Byte>

    /** The running checksum is that of everything fed. */
    ghost predicate Valid()
      reads this
    {
      checksum < U32_SIZE && initialValue < U32_SIZE && checksum == Checksum(initialValue, fed)
    }

    constructor (initialValue: nat)
      requires initialValue < U32_SIZE
      ensures Valid() && this.initialValue == initialValue && fed == []
    {
      this.initialValue := initialValue;
      this.checksum := initialValue;
      this.fed := [];
      ChecksumOfNothing(initialValue);
    }

    /** The checksum of everything fed since the last result, in whatever pieces; then it starts over. */
    method Finalize() returns (result: nat)
      requires Valid()
      modifies this
      ensures Valid() && result == Checksum(initialValue, old(fed)) && fed == []
    {
      result := checksum;
      checksum := initialValue;
      fed := [];
      ChecksumOfNothing(initialValue);
    }

    /** The batches. Empty data leaves any checksum alone; other data gives the RFC 1950 checksum. */
    method SumData(data: seq<Byte>) returns (r: nat)
      requires checksum < U32_SIZE
      ensures r == Checksum(checksum, data) < U32_SIZE
    {
      hide Sums;
      ghost var (a, b) := Halves(checksum);
      var dataOffset := 0;
      var lowerWord := checksum % 65536;
      var upperWord := checksum / 65536;
      StartSums(a, b, data);
      while dataOffset + BATCH < |data|
        invariant dataOffset <= |data|
        invariant lowerWord <= 65535 && upperWord <= 65535
        invariant (lowerWord, upperWord) == Sums(a, b, data[..dataOffset])
      {
        var next := dataOffset + BATCH;
        lowerWord, upperWord := SumBatch(lowerWord, upperWord, data[dataOffset..next]);
        NextBatch(a, b, data, dataOffset, next);
        lowerWord := Mod65521(lowerWord);
        upperWord := Mod65521(upperWord);
        dataOffset := next;
      }
      if dataOffset < |data| {
        lowerWord, upperWord := SumBatch(lowerWord, upperWord, data[dataOffset..|data|]);
        NextBatch(a, b, data, dataOffset, |data|);
        lowerWord := Mod65521(lowerWord);
        upperWord := Mod65521(upperWord);
        dataOffset := |data|;
      }
      assert data[..|data|] == data;
      PackHalves(upperWord, lowerWord);
      r := BitOr(Shl32(upperWord, 16), lowerWord);
    }

    method Update(data: seq<Byte>)
      requires Valid()
      modifies this
      ensures Valid() && fed == old(fed) + data
    {
      hide Checksum;
      ChecksumSplit(initialValue, fed, data);
      checksum := SumData(data);
      fed := fed + data;
    }
  }

  lemma ChecksumOfNothing(checksum: nat)
    ensures Checksum(checksum, []) == checksum
  {
  }

  /** The loop over at most 5552 bytes with 32-bit additions. */
  method SumBatch(lower: nat, upper: nat, batch: seq<Byte>) returns (lowerWord: nat, upperWord: nat)
    requires lower <= 65535 && upper <= 65535 && |batch| <= BATCH
    ensures lowerWord == RawA(lower, batch) < U32_SIZE
    ensures upperWord == RawB(lower, upper, batch) < U32_SIZE
  {
    lowerWord, upperWord := lower, upper;
    assert batch[..0] == [];
    for i := 0 to |batch|
      invariant lowerWord == RawA(lower, batch[..i])
      invariant upperWord == RawB(lower, upper, batch[..i])
    {
      assert batch[..i + 1][..i] == batch[..i];
      NoWrap(lower, upper, batch[..i + 1]);
      lowerWord := WrappingAdd(lowerWord, batch[i]);
      upperWord := WrappingAdd(upperWord, lowerWord);
    }
    assert batch[..|batch|] == batch;
    NoWrap(lower, upper, batch);
  }

  lemma StartSums(a: nat, b: nat, data: seq<Byte>)
    ensures Sums(a, b, data[..0]) == (a, b)
  {
  }

  lemma NextBatch(a: nat, b: nat, data: seq<Byte>, from: nat, to: nat)
    requires from < to <= |data|
    ensures var (a', b') := Sums(a, b, data[..from]);
            Sums(a, b, data[..to]) == (Mod(RawA(a', data[from..to])), Mod(RawB(a', b', data[from..to])))
  {
    hide RawA, RawB, Sums;
    var (a', b') := Sums(a, b, data[..from]);
    assert data[..to] == data[..from] + data[from..to];
    SumsAppend(a, b, data[..from], data[from..to]);
    RawIsSums(a', b', data[from..to]);
    SumsReduced(a', b', data[from..to]);
  }

  lemma PackHalves(upper: nat, lower: nat)
    requires upper <= 65535 && lower <= 65535
    ensures BitOr(Shl32(upper, 16), lower) == Word((lower, upper)) < U32_SIZE
  {
    Pow2Table();
    Shl32Exact(upper, 16, 16);
    OrDisjoint(lower, upper, 16);
    Shl8Bits(upper);
    ShlShl(upper, 8, 8);
    Shl8Bits(Shl(upper, 8));
  }

  // ---- Splitting the data ----

  /** Feeding the data in two parts gives the same checksum. */
  lemma ChecksumSplit(checksum: nat, x: seq<Byte>, y: seq<Byte>)
    requires checksum < U32_SIZE
    ensures Checksum(Checksum(checksum, x), y) == Checksum(checksum, x + y)
  {
    hide Sums;
    var (a, b) := Halves(checksum);
    SumsAppend(a, b, x, y);
    SumsBelow(a, b, x);
    assert Halves(Checksum(checksum, x)) == Sums(a, b, x);
  }

  lemma SumsBelow(a: nat, b: nat, data: seq<Byte>)
    requires a < 65536
    ensures Sums(a, b, data).0 < 65536
  {
  }

  /** The checksum is a pair of remainders exactly when there is data or the start was one already. */
  lemma ChecksumReduced(checksum: nat, data: seq<Byte>)
    requires checksum < U32_SIZE
    ensures Reduced(Checksum(checksum, data)) <==> |data| > 0 || Reduced(checksum)
  {
    var (a, b) := Halves(checksum);
    SumsBelow(a, b, data);
    assert Halves(Checksum(checksum, data)) == Sums(a, b, data);
    if |data| > 0 {
      SumsReduced(a, b, data);
    }
  }

  // ---- The sums of RFC 1950 ----

  function Plain(data: seq<Byte>): nat {
    if |data| == 0 then 0 else data[0] + Plain(data[1..])
  }

  /** Every byte counts as often as there are bytes from it to the end. */
  function Weighted(data: seq<Byte>): nat {
    if |data| == 0 then 0 else |data| * data[0] + Weighted(data[1..])
  }

  lemma {:induction false} SumsSnoc(data: seq<Byte>, x: Byte)
    ensures Plain(data + [x]) == Plain(data) + x
    ensures Weighted(data + [x]) == Weighted(data) + Plain(data) + x
  {
    if |data| == 0 {
      assert data + [x] == [x] && [x][1..] == [];
    } else {
      SumsSnoc(data[1..], x);
      assert (data + [x])[1..] == data[1..] + [x];
      assert (|data| + 1) * data[0] == |data| * data[0] + data[0];
    }
  }

  lemma {:induction false} RawClosed(a: nat, b: nat, data: seq<Byte>)
    ensures RawA(a, data) == a + Plain(data)
    ensures RawB(a, b, data) == b + |data| * a + Weighted(data)
  {
    if |data| > 0 {
      var n := |data| - 1;
      RawClosed(a, b, data[..n]);
      SumsSnoc(data[..n], data[n]);
      assert data[..n] + [data[n]] == data;
      assert (n + 1) * a == n * a + a;
    }
  }

  lemma SumsAreRaw(a: nat, b: nat, data: seq<Byte>)
    requires |data| > 0
    ensures Sums(a, b, data) == (RawA(a, data) % 65521, RawB(a, b, data) % 65521)
  {
    hide Sums, RawA, RawB;
    RawIsSums(a, b, data);
    SumsReduced(a, b, data);
  }

  /**
   * The checksum of data, in the words of section 8.2 of RFC 1950: the sum of the bytes added to the low half, and
   * the sum of all the intermediate sums added to the high half, modulo 65521.
   */
  lemma ChecksumClosed(checksum: nat, data: seq<Byte>)
    requires |data| > 0
    ensures var a, b := checksum % 65536, checksum / 65536;
      Checksum(checksum, data) ==
      65536 * ((b + |data| * a + Weighted(data)) % 65521) + (a + Plain(data)) % 65521
  {
    hide Sums, RawA, RawB, Plain, Weighted;
    var (a, b) := Halves(checksum);
    SumsAreRaw(a, b, data);
    RawClosed(a, b, data);
  }

  lemma SumsCons(x: Byte, rest: seq<Byte>)
    ensures Plain([x] + rest) == x + Plain(rest) && Weighted([x] + rest) == (|rest| + 1) * x + Weighted(rest)
  {
    assert ([x] + rest)[1..] == rest;
  }

  /** The checksum of "Wikipedia" from the initial value 1. */
  lemma KnownAnswer()
    ensures Checksum(1, [0x57, 0x69, 0x6b, 0x69, 0x70, 0x65, 0x64, 0x69, 0x61]) == 0x11e6_0398
  {
    hide Checksum, Plain, Weighted;
    var d9: seq<Byte> := [];
    var d8 := [0x61] + d9;
    var d7 := [0x69] + d8;
    var d6 := [0x64] + d7;
    var d5 := [0x65] + d6;
    var d4 := [0x70] + d5;
    var d3 := [0x69] + d4;
    var d2 := [0x6b] + d3;
    var d1 := [0x69] + d2;
    var d0 := [0x57] + d1;
    NoSums();
    SumsCons(0x61, d9);
    SumsCons(0x69, d8);
    SumsCons(0x64, d7);
    SumsCons(0x65, d6);
    SumsCons(0x70, d5);
    SumsCons(0x69, d4);
    SumsCons(0x6b, d3);
    SumsCons(0x69, d2);
    SumsCons(0x57, d1);
    assert d0 == [0x57, 0x69, 0x6b, 0x69, 0x70, 0x65, 0x64, 0x69, 0x61];
    ChecksumClosed(1, d0);
  }

  lemma NoSums()
    ensures Plain([]) == 0 && Weighted([]) == 0
  {
  }
}
