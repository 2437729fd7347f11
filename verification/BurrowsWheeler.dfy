/** The Burrows-Wheeler transform and why following the sorting permutation inverts it. */
module BurrowsWheeler {
  import opened Words
  import opened CountingSort
  import opened Permutations

  // ---- Rotations ----

  function Rotation(s: seq<Byte>, k: nat): (r: seq<Byte>)
    requires k <= |s|
    ensures |r| == |s|
  {
    s[k..] + s[..k]
  }

  function Rotations(s: seq<Byte>): (rows: seq<seq<nat>>)
    ensures |rows| == |s|
  {
    seq(|s|, k requires 0 <= k < |s| => Rotation(s, k))
  }

  /** Moves the last element to the front. */
  function RotateRight(r: seq<nat>): (q: seq<nat>)
    ensures |q| == |r|
  {
    if |r| == 0 then r else [r[|r| - 1]] + r[..|r| - 1]
  }

  // ---- The transform ----

  /** The rows of the transform matrix: the rotations of s in sorted order. */
  ghost predicate SortedRotations(rows: seq<seq<nat>>, s: seq<Byte>) {
    Sorted(rows) && multiset(rows) == multiset(Rotations(s))
  }

  /** The last column of the matrix. */
  ghost predicate IsLastColumn(column: seq<Byte>, rows: seq<seq<nat>>) {
    |column| == |rows| && forall j :: 0 <= j < |rows| ==> |rows[j]| > 0 && column[j] == rows[j][|rows[j]| - 1]
  }

  /** `column` and `origin` are a Burrows-Wheeler transform of s. */
  ghost predicate Transforms(column: seq<Byte>, origin: nat, s: seq<Byte>) {
    exists rows :: SortedRotations(rows, s) && IsLastColumn(column, rows) && origin < |rows| && rows[origin] == s
  }

  // ---- The inverse ----

  /** The sorting permutation of the last column. */
  function Successors(column: seq<Byte>): (r: seq<nat>)
    ensures |r| == |column|
    ensures forall i :: 0 <= i < |r| ==> r[i] < |column|
  {
    OrderPermutation(column, 0, 256);
    OrderStable(column, 0, 256);
    Order(column, 0, 256)
  }

  /** The bytes met on n steps of the permutation, starting at row p. */
  function Walk(column: seq<Byte>, next: seq<nat>, p: nat, n: nat): (r: seq<Byte>)
    requires |next| == |column| && (forall i :: 0 <= i < |next| ==> next[i] < |column|)
    requires n > 0 ==> p < |column|
    ensures |r| == n
    decreases n
  {
    if n == 0 then [] else [column[p]] + Walk(column, next, next[p], n - 1)
  }

  // ---- Proof ----

  lemma RotateRotation(s: seq<Byte>, k: nat)
    requires k < |s|
    ensures RotateRight(Rotation(s, k)) == Rotation(s, if k == 0 then |s| - 1 else k - 1)
  {
  }

  /** Rotating every rotation to the right gives all rotations again. */
  lemma RotationsClosed(s: seq<Byte>)
    requires |s| > 0
    ensures multiset(Map(RotateRight, Rotations(s))) == multiset(Rotations(s))
  {
    hide Rotation, RotateRight;
    var n := |s|;
    var rows := Rotations(s);
    var shifted := Map(RotateRight, rows);
    forall k | 0 <= k < n
      ensures shifted[k] == if k == 0 then rows[n - 1] else rows[k - 1]
    {
      RotateRotation(s, k);
    }
    assert shifted == [rows[n - 1]] + rows[..n - 1];
    LastToFront(rows);
  }

  lemma RowLengths(rows: seq<seq<nat>>, s: seq<Byte>)
    requires SortedRotations(rows, s)
    ensures |rows| == |s| && forall j :: 0 <= j < |rows| ==> |rows[j]| == |s|
  {
    assert |rows| == |multiset(rows)| == |multiset(Rotations(s))| == |s|;
    forall j | 0 <= j < |rows| ensures |rows[j]| == |s| {
      assert rows[j] in multiset(Rotations(s));
    }
  }

  /** Putting the last column in front and sorting stably by it gives sorted rows. */
  lemma ShiftedRowsSorted(rows: seq<seq<nat>>, s: seq<Byte>, column: seq<Byte>, next: seq<nat>)
    requires |s| > 0 && SortedRotations(rows, s) && IsLastColumn(column, rows) && Stable(next, column)
    ensures Sorted(Map((i: nat) => if i < |rows| then RotateRight(rows[i]) else [], next))
  {
    RowLengths(rows, s);
    var shifted := Map((i: nat) => if i < |rows| then RotateRight(rows[i]) else [], next);
    forall i, j | 0 <= i < j < |shifted| ensures LexLe(shifted[i], shifted[j]) {
      var a, b := rows[next[i]], rows[next[j]];
      if column[next[i]] == column[next[j]] {
        assert next[i] < next[j];
        assert LexLe(a, b);
        LexPrefix(a, b);
        assert shifted[i][1..] == a[..|a| - 1] && shifted[j][1..] == b[..|b| - 1];
      }
    }
  }

  /** The row-rotation lemma: successor rows are left rotations. */
  lemma SuccessorRow(rows: seq<seq<nat>>, s: seq<Byte>, column: seq<Byte>)
    requires |s| > 0 && SortedRotations(rows, s) && IsLastColumn(column, rows)
    ensures |Successors(column)| == |rows|
    ensures forall j :: 0 <= j < |rows| ==> RotateRight(rows[Successors(column)[j]]) == rows[j]
  {
    RowLengths(rows, s);
    var next := Successors(column);
    var f := (i: nat) => if i < |rows| then RotateRight(rows[i]) else [];
    OrderStable(column, 0, 256);
    ShiftedRowsSorted(rows, s, column, next);
    OrderPermutation(column, 0, 256);
    MapPermutation(f, next, Iota(|rows|));
    assert Map(f, Iota(|rows|)) == Map(RotateRight, rows);
    MapPermutation(RotateRight, rows, Rotations(s));
    RotationsClosed(s);
    SortedUnique(Map(f, next), rows);
  }

  lemma RotateRightInjective(a: seq<nat>, b: seq<nat>)
    requires RotateRight(a) == RotateRight(b)
    ensures a == b
  {
    if |a| > 0 {
      assert a == RotateRight(a)[1..] + [RotateRight(a)[0]];
      assert b == RotateRight(b)[1..] + [RotateRight(b)[0]];
    } else {
      assert |a| == |b|;
    }
  }

  /** From the row that is the rotation by k the walk reads s from position k on. */
  lemma {:induction false} WalkReads(rows: seq<seq<nat>>, s: seq<Byte>, column: seq<Byte>, j: nat, k: nat, n: nat)
    requires |s| > 0 && SortedRotations(rows, s) && IsLastColumn(column, rows)
    requires j < |rows| == |column| && k < |s| && k + n <= |s| && rows[j] == Rotation(s, k)
    ensures Walk(column, Successors(column), Successors(column)[j], n) == s[k..k + n]
    decreases n
  {
    hide Rotation, SortedRotations, Successors;
    if n > 0 {
      var p := NextRow(rows, s, column, j, k);
      if n > 1 {
        WalkReads(rows, s, column, p, k + 1, n - 1);
        assert [s[k]] + s[k + 1..k + n] == s[k..k + n];
      }
    }
  }

  lemma NextRow(rows: seq<seq<nat>>, s: seq<Byte>, column: seq<Byte>, j: nat, k: nat) returns (p: nat)
    requires |s| > 0 && SortedRotations(rows, s) && IsLastColumn(column, rows)
    requires j < |rows| == |column| && k < |s| && rows[j] == Rotation(s, k)
    ensures p == Successors(column)[j] < |rows| && column[p] == s[k]
    ensures k + 1 < |s| ==> rows[p] == Rotation(s, k + 1)
  {
    SuccessorRow(rows, s, column);
    RowLengths(rows, s);
    p := Successors(column)[j];
    assert RotateRight(rows[p])[0] == rows[j][0] == s[k];
    if k + 1 < |s| {
      RotateRotation(s, k + 1);
      RotateRightInjective(rows[p], Rotation(s, k + 1));
    }
  }

  /** Inverse transform: the walk from the successor of the origin reads exactly s. */
  lemma InverseTransform(column: seq<Byte>, origin: nat, s: seq<Byte>)
    requires |s| > 0 && Transforms(column, origin, s)
    ensures |column| == |s| && origin < |column|
    ensures Walk(column, Successors(column), Successors(column)[origin], |s|) == s
  {
    var rows :| SortedRotations(rows, s) && IsLastColumn(column, rows) && origin < |rows| && rows[origin] == s;
    RowLengths(rows, s);
    assert Rotation(s, 0) == s;
    WalkReads(rows, s, column, origin, 0, |s|);
  }

  // ---- The encoder ----

  /** Every string has a transform; any row equal to s may be the origin. */
  lemma TransformExists(s: seq<Byte>)
    requires |s| > 0
    ensures exists column: seq<Byte>, origin: nat :: Transforms(column, origin, s) && |column| == |s| && origin < |s|
  {
    hide Sort, Rotations;
    var rows := Sort(Rotations(s));
    SortSorted(Rotations(s));
    RowLengths(rows, s);
    RowBytes(rows, s);
    var column: seq<Byte> := seq(|rows|, j requires 0 <= j < |rows| => rows[j][|s| - 1]);
    FirstRotation(s);
    assert s in multiset(rows);
    var origin :| 0 <= origin < |rows| && rows[origin] == s;
    assert SortedRotations(rows, s) && IsLastColumn(column, rows);
    assert Transforms(column, origin, s);
  }

  lemma FirstRotation(s: seq<Byte>)
    requires |s| > 0
    ensures s in Rotations(s)
  {
    assert Rotation(s, 0) == s;
    assert Rotations(s)[0] == s;
  }

  lemma RowBytes(rows: seq<seq<nat>>, s: seq<Byte>)
    requires |s| > 0 && SortedRotations(rows, s)
    ensures forall j :: 0 <= j < |rows| ==> |rows[j]| == |s| && rows[j][|s| - 1] < 256
  {
    RowLengths(rows, s);
    forall j | 0 <= j < |rows| ensures rows[j][|s| - 1] < 256 {
      assert rows[j] in multiset(Rotations(s));
      var k :| 0 <= k < |s| && Rotations(s)[k] == rows[j];
      assert Rotation(s, k)[|s| - 1] < 256;
    }
  }
}
