/** Sequences that are permutations of each other, and lexicographic sorting. */
module Permutations {

  function Map<A, B>(f: A -> B, a: seq<A>): (r: seq<B>)
    ensures |r| == |a|
    ensures forall i :: 0 <= i < |a| ==> r[i] == f(a[i])
  {
    seq(|a|, i requires 0 <= i < |a| => f(a[i]))
  }

  function Without<A>(a: seq<A>, i: nat): (r: seq<A>)
    requires i < |a|
    ensures |r| == |a| - 1
    ensures forall k :: 0 <= k < |r| ==> r[k] == if k < i then a[k] else a[k + 1]
  {
    a[..i] + a[i + 1..]
  }

  lemma WithoutMultiset<A>(a: seq<A>, i: nat)
    requires i < |a|
    ensures multiset(a) == multiset(Without(a, i)) + multiset{a[i]}
  {
    assert a == a[..i] + [a[i]] + a[i + 1..];
  }

  lemma PermutationHas<A>(a: seq<A>, b: seq<A>, i: nat) returns (j: nat)
    requires multiset(a) == multiset(b) && i < |a|
    ensures j < |b| && b[j] == a[i] && multiset(Without(a, i)) == multiset(Without(b, j))
  {
    assert a[i] in multiset(b);
    j :| 0 <= j < |b| && b[j] == a[i];
    WithoutMultiset(a, i);
    WithoutMultiset(b, j);
    assert multiset(Without(a, i)) == multiset(a) - multiset{a[i]};
    assert multiset(Without(b, j)) == multiset(b) - multiset{b[j]};
  }

  lemma SameLength<A>(a: seq<A>, b: seq<A>)
    requires multiset(a) == multiset(b)
    ensures |a| == |b|
  {
    assert |multiset(a)| == |a| && |multiset(b)| == |b|;
  }

  lemma MapWithout<A, B>(f: A -> B, a: seq<A>, i: nat)
    requires i < |a|
    ensures Map(f, Without(a, i)) == Without(Map(f, a), i)
  {
  }

  lemma LastToFront<A>(a: seq<A>)
    requires |a| > 0
    ensures multiset([a[|a| - 1]] + a[..|a| - 1]) == multiset(a)
  {
    assert a == a[..|a| - 1] + [a[|a| - 1]];
  }

  lemma SameTails<A>(a: seq<A>, b: seq<A>)
    requires multiset(a) == multiset(b) && |a| > 0 && |b| > 0 && a[0] == b[0]
    ensures multiset(a[1..]) == multiset(b[1..])
  {
    assert a == [a[0]] + a[1..] && b == [b[0]] + b[1..];
    assert multiset(a[1..]) == multiset(a) - multiset{a[0]};
    assert multiset(b[1..]) == multiset(b) - multiset{b[0]};
  }

  /** Mapping keeps permutations. */
  lemma {:induction false} MapPermutation<A, B>(f: A -> B, a: seq<A>, b: seq<A>)
    requires multiset(a) == multiset(b)
    ensures multiset(Map(f, a)) == multiset(Map(f, b))
    decreases |a|
  {
    hide Map, Without;
    SameLength(a, b);
    if |a| > 0 {
      var j := PermutationHas(a, b, 0);
      MapPermutation(f, Without(a, 0), Without(b, j));
      MapWithout(f, a, 0);
      MapWithout(f, b, j);
      WithoutMultiset(Map(f, a), 0);
      WithoutMultiset(Map(f, b), j);
    } else {
      assert a == b;
    }
  }

  // ---- Lexicographic order ----

  predicate LexLe(a: seq<nat>, b: seq<nat>) {
    |a| == 0 || (|b| > 0 && (a[0] < b[0] || (a[0] == b[0] && LexLe(a[1..], b[1..]))))
  }

  lemma {:induction false} LexTotal(a: seq<nat>, b: seq<nat>)
    ensures LexLe(a, b) || LexLe(b, a)
    decreases |a|
  {
    if |a| > 0 && |b| > 0 { LexTotal(a[1..], b[1..]); }
  }

  lemma {:induction false} LexAntisymmetric(a: seq<nat>, b: seq<nat>)
    requires LexLe(a, b) && LexLe(b, a)
    ensures a == b
    decreases |a|
  {
    if |a| > 0 && |b| > 0 {
      LexAntisymmetric(a[1..], b[1..]);
      assert a == [a[0]] + a[1..] && b == [b[0]] + b[1..];
    }
  }

  lemma {:induction false} LexTransitive(a: seq<nat>, b: seq<nat>, c: seq<nat>)
    requires LexLe(a, b) && LexLe(b, c)
    ensures LexLe(a, c)
    decreases |a|
  {
    if |a| > 0 && |b| > 0 && |c| > 0 && a[0] == b[0] == c[0] {
      LexTransitive(a[1..], b[1..], c[1..]);
    }
  }

  /** Dropping the last element of two words of one length keeps their order. */
  lemma {:induction false} LexPrefix(a: seq<nat>, b: seq<nat>)
    requires LexLe(a, b) && |a| == |b| > 0
    ensures LexLe(a[..|a| - 1], b[..|b| - 1])
    decreases |a|
  {
    if |a| > 1 && a[0] == b[0] {
      LexPrefix(a[1..], b[1..]);
      assert a[..|a| - 1][1..] == a[1..][..|a| - 2];
      assert b[..|b| - 1][1..] == b[1..][..|b| - 2];
    }
  }

  ghost predicate Sorted(rows: seq<seq<nat>>) {
    forall i, j :: 0 <= i < j < |rows| ==> LexLe(rows[i], rows[j])
  }

  lemma LexReflexive(a: seq<nat>)
    ensures LexLe(a, a)
  {
    LexTotal(a, a);
  }

  lemma FirstIsLeast(rows: seq<seq<nat>>, x: seq<nat>)
    requires Sorted(rows) && x in rows
    ensures LexLe(rows[0], x)
  {
    var i :| 0 <= i < |rows| && rows[i] == x;
    LexReflexive(x);
  }

  /** A sorted permutation is unique. */
  lemma {:induction false} SortedUnique(a: seq<seq<nat>>, b: seq<seq<nat>>)
    requires Sorted(a) && Sorted(b) && multiset(a) == multiset(b)
    ensures a == b
    decreases |a|
  {
    hide Sorted;
    SameLength(a, b);
    if |a| > 0 {
      SameFirst(a, b);
      SameTails(a, b);
      SortedTail(a);
      SortedTail(b);
      SortedUnique(a[1..], b[1..]);
      assert a == [a[0]] + a[1..] && b == [b[0]] + b[1..];
    }
  }

  lemma SortedTail(rows: seq<seq<nat>>)
    requires Sorted(rows) && |rows| > 0
    ensures Sorted(rows[1..])
  {
  }

  lemma SameFirst(a: seq<seq<nat>>, b: seq<seq<nat>>)
    requires Sorted(a) && Sorted(b) && multiset(a) == multiset(b) && |a| > 0 && |b| > 0
    ensures a[0] == b[0]
  {
    assert a[0] in multiset(b) && b[0] in multiset(a);
    FirstIsLeast(b, a[0]);
    FirstIsLeast(a, b[0]);
    LexAntisymmetric(a[0], b[0]);
  }

  // ---- Sorting ----

  function Insert(x: seq<nat>, rows: seq<seq<nat>>): (r: seq<seq<nat>>)
    ensures multiset(r) == multiset(rows) + multiset{x}
  {
    if |rows| == 0 then [x]
    else if LexLe(x, rows[0]) then [x] + rows
    else
      assert rows == [rows[0]] + rows[1..];
      [rows[0]] + Insert(x, rows[1..])
  }

  function Sort(rows: seq<seq<nat>>): (r: seq<seq<nat>>)
    ensures multiset(r) == multiset(rows)
  {
    if |rows| == 0 then []
    else
      assert rows == [rows[0]] + rows[1..];
      Insert(rows[0], Sort(rows[1..]))
  }

  lemma {:induction false} InsertSorted(x: seq<nat>, rows: seq<seq<nat>>)
    requires Sorted(rows)
    ensures Sorted(Insert(x, rows))
    decreases |rows|
  {
    if |rows| > 0 {
      if LexLe(x, rows[0]) {
        forall j | 0 <= j < |rows| ensures LexLe(x, rows[j]) {
          LexReflexive(rows[0]);
          LexTransitive(x, rows[0], rows[j]);
        }
      } else {
        LexTotal(x, rows[0]);
        InsertSorted(x, rows[1..]);
        var r := Insert(x, rows[1..]);
        forall j | 0 <= j < |r| ensures LexLe(rows[0], r[j]) {
          assert r[j] in multiset(r);
          if r[j] != x {
            assert r[j] in multiset(rows[1..]);
            FirstIsLeast(rows, r[j]);
          }
        }
      }
    }
  }

  lemma {:induction false} SortSorted(rows: seq<seq<nat>>)
    ensures Sorted(Sort(rows))
    decreases |rows|
  {
    if |rows| > 0 {
      SortSorted(rows[1..]);
      InsertSorted(rows[0], Sort(rows[1..]));
    }
  }
}
