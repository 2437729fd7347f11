/**
 * Counting sort of the indices of a key list: the table that the Huffman coder and the inverse
 * Burrows-Wheeler transform both build from per-key counts, running offsets and one filling pass.
 */
module CountingSort {

  /** Number of entries equal to k. */
  function Count(keys: seq<nat>, k: nat): nat {
    if |keys| == 0 then 0
    else Count(keys[..|keys| - 1], k) + if keys[|keys| - 1] == k then 1 else 0
  }

  /** Indices of the entries equal to k, in increasing order. */
  function Bucket(keys: seq<nat>, k: nat): seq<nat> {
    if |keys| == 0 then []
    else Bucket(keys[..|keys| - 1], k) + if keys[|keys| - 1] == k then [|keys| - 1] else []
  }

  /** Number of entries with a key from lo up to, not including, k. */
  function Below(keys: seq<nat>, lo: nat, k: nat): nat {
    if k <= lo then 0 else Below(keys, lo, k - 1) + Count(keys, k - 1)
  }

  /** Indices of the entries with keys in [lo, hi), sorted by key and by index within a key. */
  function Order(keys: seq<nat>, lo: nat, hi: nat): seq<nat> {
    if hi <= lo then [] else Order(keys, lo, hi - 1) + Bucket(keys, hi - 1)
  }

  /** Place that the filling pass gives to entry m. */
  function Slot(keys: seq<nat>, lo: nat, m: nat): nat
    requires m < |keys|
  {
    Below(keys, lo, keys[m]) + Count(keys[..m], keys[m])
  }

  lemma {:induction false} BucketLength(keys: seq<nat>, k: nat)
    ensures |Bucket(keys, k)| == Count(keys, k)
  {
    if |keys| > 0 { BucketLength(keys[..|keys| - 1], k); }
  }

  lemma {:induction false} OrderLength(keys: seq<nat>, lo: nat, hi: nat)
    ensures |Order(keys, lo, hi)| == Below(keys, lo, hi)
  {
    if lo < hi {
      OrderLength(keys, lo, hi - 1);
      BucketLength(keys, hi - 1);
    }
  }

  /** Entry r of a bucket is the index whose key has r equal predecessors. */
  lemma {:induction false} BucketEntry(keys: seq<nat>, k: nat, r: nat)
    requires r < |Bucket(keys, k)|
    ensures var m := Bucket(keys, k)[r]; m < |keys| && keys[m] == k && Count(keys[..m], k) == r
  {
    var n := |keys| - 1;
    var rest := keys[..n];
    BucketLength(rest, k);
    if r < |Bucket(rest, k)| {
      BucketEntry(rest, k, r);
      assert keys[..Bucket(rest, k)[r]] == rest[..Bucket(rest, k)[r]];
    }
  }

  lemma {:induction false} CountPrefix(keys: seq<nat>, k: nat, m: nat)
    requires m <= |keys|
    ensures Count(keys[..m], k) <= Count(keys, k)
    ensures m < |keys| && keys[m] == k ==> Count(keys[..m], k) < Count(keys, k)
  {
    if m == |keys| {
      assert keys[..m] == keys;
    } else {
      CountPrefix(keys[..|keys| - 1], k, m);
      assert keys[..|keys| - 1][..m] == keys[..m];
    }
  }

  lemma {:induction false} CountBound(keys: seq<nat>, k: nat)
    ensures Count(keys, k) <= |keys|
  {
    if |keys| > 0 { CountBound(keys[..|keys| - 1], k); }
  }

  lemma {:induction false} BelowGap(keys: seq<nat>, lo: nat, j: nat, k: nat)
    requires lo <= j < k
    ensures Below(keys, lo, j) + Count(keys, j) <= Below(keys, lo, k)
    decreases k
  {
    if j < k - 1 { BelowGap(keys, lo, j, k - 1); }
  }

  lemma {:induction false} BelowSnoc(keys: seq<nat>, c: nat, lo: nat, hi: nat)
    ensures Below(keys + [c], lo, hi) == Below(keys, lo, hi) + if lo <= c < hi then 1 else 0
    decreases hi
  {
    if lo < hi {
      BelowSnoc(keys, c, lo, hi - 1);
      assert (keys + [c])[..|keys|] == keys;
    }
  }

  lemma {:induction false} BelowBound(keys: seq<nat>, lo: nat, hi: nat)
    ensures Below(keys, lo, hi) <= |keys|
  {
    if |keys| == 0 {
      BelowEmpty(lo, hi);
    } else {
      BelowBound(keys[..|keys| - 1], lo, hi);
      BelowSnoc(keys[..|keys| - 1], keys[|keys| - 1], lo, hi);
      assert keys[..|keys| - 1] + [keys[|keys| - 1]] == keys;
    }
  }

  lemma {:induction false} BelowEmpty(lo: nat, hi: nat)
    ensures Below([], lo, hi) == 0
  {
    if lo < hi { BelowEmpty(lo, hi - 1); }
  }

  /** Every slot lies in the table. */
  lemma SlotBound(keys: seq<nat>, lo: nat, hi: nat, m: nat)
    requires m < |keys| && lo <= keys[m] < hi
    ensures Slot(keys, lo, m) < Below(keys, lo, hi) <= |keys|
  {
    CountPrefix(keys, keys[m], m);
    BelowGap(keys, lo, keys[m], hi);
    BelowBound(keys, lo, hi);
  }

  /** No two entries share a slot. */
  lemma SlotDistinct(keys: seq<nat>, lo: nat, i: nat, j: nat)
    requires i < j < |keys| && lo <= keys[i] && lo <= keys[j]
    ensures Slot(keys, lo, i) != Slot(keys, lo, j)
  {
    CountPrefix(keys, keys[i], i);
    CountPrefix(keys, keys[j], j);
    if keys[i] == keys[j] {
      CountPrefix(keys[..j], keys[i], i);
      assert keys[..j][..i] == keys[..i];
    } else if keys[i] < keys[j] {
      BelowGap(keys, lo, keys[i], keys[j]);
    } else {
      BelowGap(keys, lo, keys[j], keys[i]);
    }
  }

  /** Position Below(k) + r of the sorted order is entry r of bucket k. */
  lemma {:induction false} OrderAt(keys: seq<nat>, lo: nat, hi: nat, k: nat, r: nat)
    requires lo <= k < hi && r < Count(keys, k)
    ensures Below(keys, lo, k) + r < |Order(keys, lo, hi)|
    ensures r < |Bucket(keys, k)| && Order(keys, lo, hi)[Below(keys, lo, k) + r] == Bucket(keys, k)[r]
    decreases hi
  {
    hide Count, Bucket;
    OrderLength(keys, lo, hi - 1);
    BucketLength(keys, k);
    if k < hi - 1 { OrderAt(keys, lo, hi - 1, k, r); }
  }

  /** Every position of the sorted order belongs to some bucket. */
  lemma {:induction false} OrderPosition(keys: seq<nat>, lo: nat, hi: nat, j: nat) returns (k: nat, r: nat)
    requires j < |Order(keys, lo, hi)|
    ensures lo <= k < hi && r < Count(keys, k) && j == Below(keys, lo, k) + r
    decreases hi
  {
    OrderLength(keys, lo, hi - 1);
    BucketLength(keys, hi - 1);
    if j < |Order(keys, lo, hi - 1)| {
      k, r := OrderPosition(keys, lo, hi - 1, j);
    } else {
      k, r := hi - 1, j - |Order(keys, lo, hi - 1)|;
    }
  }

  /** The table holds entry m at the slot of m, for the first `done` entries. */
  ghost predicate Filled(table: seq<nat>, keys: seq<nat>, lo: nat, hi: nat, done: nat)
    requires done <= |keys|
  {
    forall m :: 0 <= m < done && lo <= keys[m] < hi ==>
      Slot(keys, lo, m) < |table| && table[Slot(keys, lo, m)] == m
  }

  lemma NothingFilled(table: seq<nat>, keys: seq<nat>, lo: nat, hi: nat)
    ensures Filled(table, keys, lo, hi, 0)
    ensures forall k :: Count(keys[..0], k) == 0
  {
  }

  lemma FillSkip(table: seq<nat>, keys: seq<nat>, lo: nat, hi: nat, m: nat)
    requires m < |keys| && Filled(table, keys, lo, hi, m) && !(lo <= keys[m] < hi)
    ensures Filled(table, keys, lo, hi, m + 1)
  {
  }

  lemma CountNext(keys: seq<nat>, m: nat, k: nat)
    requires m < |keys|
    ensures Count(keys[..m + 1], k) == Count(keys[..m], k) + if keys[m] == k then 1 else 0
  {
    assert keys[..m + 1][..m] == keys[..m];
  }

  /** One step of the filling pass. */
  lemma FillStep(table: seq<nat>, keys: seq<nat>, lo: nat, hi: nat, m: nat)
    requires m < |keys| && Filled(table, keys, lo, hi, m)
    requires lo <= keys[m] < hi && Slot(keys, lo, m) < |table|
    ensures Filled(table[Slot(keys, lo, m) := m], keys, lo, hi, m + 1)
  {
    forall i | 0 <= i < m && lo <= keys[i] < hi
      ensures Slot(keys, lo, i) != Slot(keys, lo, m)
    {
      SlotDistinct(keys, lo, i, m);
    }
  }

  lemma FilledAt(table: seq<nat>, keys: seq<nat>, lo: nat, hi: nat, j: nat)
    requires Filled(table, keys, lo, hi, |keys|) && j < |Order(keys, lo, hi)|
    ensures j < |table| && table[j] == Order(keys, lo, hi)[j]
  {
    var k, r := OrderPosition(keys, lo, hi, j);
    OrderAt(keys, lo, hi, k, r);
    BucketEntry(keys, k, r);
    assert Slot(keys, lo, Order(keys, lo, hi)[j]) == j;
  }

  /** A completely filled table is the sorted order. */
  lemma FilledIsOrder(table: seq<nat>, keys: seq<nat>, lo: nat, hi: nat)
    requires Filled(table, keys, lo, hi, |keys|)
    ensures |Order(keys, lo, hi)| <= |table|
    ensures table[..|Order(keys, lo, hi)|] == Order(keys, lo, hi)
  {
    var order := Order(keys, lo, hi);
    if |order| > |table| {
      FilledAt(table, keys, lo, hi, |table|);
    }
    forall j | 0 <= j < |order| ensures table[j] == order[j] {
      FilledAt(table, keys, lo, hi, j);
    }
  }

  /** The order is sorted by key and stable. */
  ghost predicate Stable(order: seq<nat>, keys: seq<nat>) {
    && (forall j :: 0 <= j < |order| ==> order[j] < |keys|)
    && (forall i, j :: 0 <= i < j < |order| ==>
          keys[order[i]] < keys[order[j]] || (keys[order[i]] == keys[order[j]] && order[i] < order[j]))
  }

  lemma OrderStable(keys: seq<nat>, lo: nat, hi: nat)
    ensures Stable(Order(keys, lo, hi), keys)
  {
    var order := Order(keys, lo, hi);
    forall j | 0 <= j < |order| ensures order[j] < |keys| {
      var k, r := OrderEntry(keys, lo, hi, j);
    }
    forall i, j | 0 <= i < j < |order|
      ensures keys[order[i]] < keys[order[j]] || (keys[order[i]] == keys[order[j]] && order[i] < order[j])
    {
      var k, r := OrderEntry(keys, lo, hi, i);
      var k', r' := OrderEntry(keys, lo, hi, j);
      if k' < k {
        BelowGap(keys, lo, k', k);
      } else if k == k' && order[j] <= order[i] {
        assert keys[..order[i]][..order[j]] == keys[..order[j]];
        CountPrefix(keys[..order[i]], k, order[j]);
      }
    }
  }

  lemma OrderEntry(keys: seq<nat>, lo: nat, hi: nat, j: nat) returns (k: nat, r: nat)
    requires j < |Order(keys, lo, hi)|
    ensures r < Count(keys, k) && j == Below(keys, lo, k) + r && lo <= k
    ensures var m := Order(keys, lo, hi)[j]; m < |keys| && keys[m] == k && Count(keys[..m], k) == r
  {
    k, r := OrderPosition(keys, lo, hi, j);
    OrderAt(keys, lo, hi, k, r);
    BucketEntry(keys, k, r);
  }

  lemma BucketSnoc(keys: seq<nat>, c: nat, k: nat)
    ensures Bucket(keys + [c], k) == Bucket(keys, k) + if c == k then [|keys|] else []
  {
    assert (keys + [c])[..|keys|] == keys;
  }

  /** Appending a key inserts its index into the order. */
  lemma {:induction false} OrderSnoc(keys: seq<nat>, c: nat, lo: nat, hi: nat) returns (a: seq<nat>, b: seq<nat>)
    ensures a + b == Order(keys, lo, hi)
    ensures Order(keys + [c], lo, hi) == a + (if lo <= c < hi then [|keys|] else []) + b
    decreases hi
  {
    hide Bucket;
    if hi <= lo {
      a, b := [], [];
    } else {
      a, b := OrderSnoc(keys, c, lo, hi - 1);
      BucketSnoc(keys, c, hi - 1);
      var last := Bucket(keys, hi - 1);
      if c == hi - 1 {
        assert a + [] + b == Order(keys, lo, hi - 1);
        a, b := Order(keys, lo, hi - 1) + last, [];
        assert Order(keys + [c], lo, hi) == a + [|keys|];
      } else {
        assert last + [] == last;
        ghost var middle: seq<nat> := if lo <= c < hi then [|keys|] else [];
        assert a + middle + b + last == a + middle + (b + last) && a + b + last == a + (b + last);
        b := b + last;
      }
    }
  }

  /** The indices 0, 1, ..., n - 1. */
  function Iota(n: nat): (s: seq<nat>)
    ensures |s| == n && forall i :: 0 <= i < n ==> s[i] == i
  {
    seq(n, i => i)
  }

  /** When every key is in range the order is a permutation of all indices. */
  lemma {:induction false} OrderPermutation(keys: seq<nat>, lo: nat, hi: nat)
    requires forall i :: 0 <= i < |keys| ==> lo <= keys[i] < hi
    ensures multiset(Order(keys, lo, hi)) == multiset(Iota(|keys|))
    ensures |Order(keys, lo, hi)| == |keys|
  {
    hide Order, Below, Count;
    if |keys| == 0 {
      OrderLength(keys, lo, hi);
      BelowEmpty(lo, hi);
      assert keys == [] && Iota(0) == [];
    } else {
      var n := |keys| - 1;
      OrderPermutation(keys[..n], lo, hi);
      var a, b := OrderSnoc(keys[..n], keys[n], lo, hi);
      assert keys[..n] + [keys[n]] == keys;
      InsertIota(a, b, n);
    }
  }

  lemma InsertIota(a: seq<nat>, b: seq<nat>, n: nat)
    requires multiset(a + b) == multiset(Iota(n))
    ensures multiset(a + [n] + b) == multiset(Iota(n + 1))
  {
    assert Iota(n + 1) == Iota(n) + [n];
    assert multiset(a + [n] + b) == multiset(a + b) + multiset([n]);
  }
}
