/** The first run-length stage of bzip2: runs of 4 to 255 equal bytes are four bytes and a count. */
module RunLength {
  import opened Words

  function Repeat(b: Byte, n: nat): (r: seq<Byte>)
    ensures |r| == n && forall i :: 0 <= i < n ==> r[i] == b
  {
    seq(n, _ => b)
  }

  /** What the output stage writes for t, given the last byte and how often it was just seen. */
  function Expand(t: seq<Byte>, last: Byte, count: nat): seq<Byte>
    decreases |t|
  {
    if |t| == 0 then []
    else if count == 4 then Repeat(last, t[0]) + Expand(t[1..], 0, 0)
    else [t[0]] + Expand(t[1..], t[0], if t[0] == last then count + 1 else 1)
  }

  /** Length of the first run, at most 255. */
  function RunSize(s: seq<Byte>): (k: nat)
    requires |s| > 0
    ensures 1 <= k <= |s| && k <= 255 && s[..k] == Repeat(s[0], k)
    ensures k < |s| && k < 255 ==> s[k] != s[0]
  {
    RunSizeFrom(s, 1)
  }

  function RunSizeFrom(s: seq<Byte>, k: nat): (r: nat)
    requires 1 <= k <= |s| && k <= 255 && s[..k] == Repeat(s[0], k)
    ensures k <= r <= |s| && r <= 255 && s[..r] == Repeat(s[0], r)
    ensures r < |s| && r < 255 ==> s[r] != s[0]
    decreases |s| - k
  {
    if k < |s| && k < 255 && s[k] == s[0] then
      assert s[..k + 1] == s[..k] + [s[k]];
      RunSizeFrom(s, k + 1)
    else k
  }

  /** The encoder: greedy runs. */
  function Compress(s: seq<Byte>): (t: seq<Byte>)
    ensures |s| > 0 ==> |t| > 0
    decreases |s|
  {
    if |s| == 0 then []
    else
      var k := RunSize(s);
      if k < 4 then s[..k] + Compress(s[k..])
      else s[..4] + [k - 4] + Compress(s[k..])
  }

  /** Reading n more bytes of a run that has been seen `count` times. */
  lemma {:induction false} ExpandRun(b: Byte, n: nat, rest: seq<Byte>, count: nat)
    requires 1 <= count && count + n <= 4
    ensures Expand(Repeat(b, n) + rest, b, count) == Repeat(b, n) + Expand(rest, b, count + n)
    decreases n
  {
    if n == 0 {
      assert Repeat(b, n) + rest == rest;
      assert Repeat(b, n) + Expand(rest, b, count) == Expand(rest, b, count);
    } else {
      var t := Repeat(b, n) + rest;
      assert t[0] == b && t[1..] == Repeat(b, n - 1) + rest;
      ExpandRun(b, n - 1, rest, count + 1);
      assert Expand(t, b, count) == [b] + Expand(t[1..], b, count + 1);
      assert Repeat(b, n) == [b] + Repeat(b, n - 1);
      assert [b] + (Repeat(b, n - 1) + Expand(rest, b, count + n)) == Repeat(b, n) + Expand(rest, b, count + n);
    }
  }

  /** A run that starts afresh. */
  lemma ExpandFreshRun(b: Byte, n: nat, rest: seq<Byte>, last: Byte, count: nat)
    requires 1 <= n <= 4 && count < 4 && (count == 0 || last != b)
    ensures Expand(Repeat(b, n) + rest, last, count) == Repeat(b, n) + Expand(rest, b, n)
  {
    var t := Repeat(b, n) + rest;
    assert t[1..] == Repeat(b, n - 1) + rest;
    ExpandRun(b, n - 1, rest, 1);
    assert Repeat(b, n) == [b] + Repeat(b, n - 1);
    assert [b] + (Repeat(b, n - 1) + Expand(rest, b, n)) == Repeat(b, n) + Expand(rest, b, n);
  }

  lemma ExpandCount(b: Byte, n: Byte, rest: seq<Byte>)
    ensures Expand([n] + rest, b, 4) == Repeat(b, n) + Expand(rest, 0, 0)
  {
    assert ([n] + rest)[1..] == rest;
  }

  lemma SplitRun(s: seq<Byte>, k: nat)
    requires 4 <= k <= |s| && s[..k] == Repeat(s[0], k)
    ensures s[..4] == Repeat(s[0], 4)
    ensures s == Repeat(s[0], 4) + (Repeat(s[0], k - 4) + s[k..])
  {
    assert s[..4] == s[..k][..4];
    assert s == s[..k] + s[k..];
    assert Repeat(s[0], 4) + (Repeat(s[0], k - 4) + s[k..]) == Repeat(s[0], k) + s[k..];
  }

  /** The output stage undoes the encoder from any state that does not continue the first run. */
  lemma {:induction false} ExpandCompressed(s: seq<Byte>, last: Byte, count: nat)
    requires count < 4 && (|s| == 0 || count == 0 || last != s[0])
    ensures Expand(Compress(s), last, count) == s
    decreases |s|
  {
    if |s| > 0 {
      var k, b := RunSize(s), s[0];
      var rest := Compress(s[k..]);
      if k < 4 {
        ExpandCompressed(s[k..], b, k);
        ShortRun(s, k, rest, last, count);
      } else {
        ExpandCompressed(s[k..], 0, 0);
        LongRun(s, k, rest, last, count);
      }
    }
  }

  lemma ShortRun(s: seq<Byte>, k: nat, rest: seq<Byte>, last: Byte, count: nat)
    requires 1 <= k <= |s| && k < 4 && s[..k] == Repeat(s[0], k)
    requires count < 4 && (count == 0 || last != s[0]) && Expand(rest, s[0], k) == s[k..]
    ensures Expand(s[..k] + rest, last, count) == s
  {
    hide Expand, Repeat;
    ExpandFreshRun(s[0], k, rest, last, count);
    assert s == s[..k] + s[k..];
  }

  lemma LongRun(s: seq<Byte>, k: nat, rest: seq<Byte>, last: Byte, count: nat)
    requires 4 <= k <= |s| && k <= 255 && s[..k] == Repeat(s[0], k)
    requires count < 4 && (count == 0 || last != s[0]) && Expand(rest, 0, 0) == s[k..]
    ensures Expand(s[..4] + [k - 4] + rest, last, count) == s
  {
    hide Expand, Repeat;
    var b := s[0];
    SplitRun(s, k);
    assert Repeat(b, 4) + [k - 4] + rest == Repeat(b, 4) + ([k - 4] + rest);
    ExpandFreshRun(b, 4, [k - 4] + rest, last, count);
    ExpandCount(b, k - 4, rest);
  }

  /** Run-length round trip for every byte string. */
  lemma RoundTrip(s: seq<Byte>)
    ensures Expand(Compress(s), 0, 0) == s
  {
    ExpandCompressed(s, 0, 0);
  }
}
