/** Matches of the Lempel-Ziv formats: copies from the output so far that may overlap themselves. */
module Lz77 {
  import opened Words

  /** Appends `length` bytes, each equal to the one `distance` places before it. */
  function CopyMatch(out: seq<Byte>, distance: nat, length: nat): (r: seq<Byte>)
    requires 1 <= distance <= |out|
    ensures |r| == |out| + length && r[..|out|] == out
    ensures forall i :: |out| <= i < |r| ==> r[i] == r[i - distance]
    decreases length
  {
    if length == 0 then out
    else CopyMatch(out + [out[|out| - distance]], distance, length - 1)
  }

  /** The result is determined by its prefix and its period. */
  lemma CopyMatchUnique(out: seq<Byte>, distance: nat, length: nat, r: seq<Byte>)
    requires 1 <= distance <= |out|
    requires |r| == |out| + length && r[..|out|] == out
    requires forall i :: |out| <= i < |r| ==> r[i] == r[i - distance]
    ensures r == CopyMatch(out, distance, length)
  {
    var e := CopyMatch(out, distance, length);
    SamePrefix(out, distance, e, r, |e|);
  }

  lemma {:induction false} SamePrefix(out: seq<Byte>, distance: nat, a: seq<Byte>, b: seq<Byte>, n: nat)
    requires 1 <= distance <= |out| <= |a| == |b| && n <= |a| && a[..|out|] == out == b[..|out|]
    requires forall i :: |out| <= i < |a| ==> a[i] == a[i - distance]
    requires forall i :: |out| <= i < |b| ==> b[i] == b[i - distance]
    ensures a[..n] == b[..n]
  {
    if n > 0 {
      SamePrefix(out, distance, a, b, n - 1);
      assert a[n - 1] == b[n - 1] by {
        if n - 1 < |out| {
          assert a[n - 1] == a[..|out|][n - 1] == b[..|out|][n - 1];
        } else {
          assert a[..n - 1][n - 1 - distance] == b[..n - 1][n - 1 - distance];
        }
      }
    }
  }

  // ---- Tokens ----

  datatype Token = Literal(byte: Byte) | Copy(length: nat, distance: nat)

  /** Every match reaches back at most to the start of the output, of which `size` bytes exist already. */
  predicate Reachable(tokens: seq<Token>, size: nat) {
    |tokens| == 0 ||
    match tokens[0]
    case Literal(_) => Reachable(tokens[1..], size + 1)
    case Copy(length, distance) => 1 <= distance <= size && Reachable(tokens[1..], size + length)
  }

  /** The output after the tokens. */
  function Expand(tokens: seq<Token>, out: seq<Byte>): (r: seq<Byte>)
    requires Reachable(tokens, |out|)
    ensures |r| >= |out|
    decreases |tokens|
  {
    if |tokens| == 0 then out
    else
      match tokens[0]
      case Literal(byte) => Expand(tokens[1..], out + [byte])
      case Copy(length, distance) => Expand(tokens[1..], CopyMatch(out, distance, length))
  }

  function LiteralTokens(s: seq<Byte>): seq<Token> {
    seq(|s|, i requires 0 <= i < |s| => Literal(s[i]))
  }

  lemma {:induction false} LiteralsExpand(s: seq<Byte>, out: seq<Byte>)
    ensures Reachable(LiteralTokens(s), |out|) && Expand(LiteralTokens(s), out) == out + s
    decreases |s|
  {
    if |s| == 0 {
      assert out + s == out;
    } else {
      assert LiteralTokens(s)[1..] == LiteralTokens(s[1..]);
      LiteralsExpand(s[1..], out + [s[0]]);
      assert out + [s[0]] + s[1..] == out + s;
    }
  }

  lemma {:induction false} ExpandAppend(a: seq<Token>, b: seq<Token>, out: seq<Byte>)
    requires Reachable(a, |out|) && Reachable(b, |Expand(a, out)|)
    ensures Reachable(a + b, |out|) && Expand(a + b, out) == Expand(b, Expand(a, out))
    decreases |a|
  {
    hide CopyMatch;
    if |a| == 0 {
      assert a + b == b;
    } else {
      assert (a + b)[1..] == a[1..] + b && (a + b)[0] == a[0];
      match a[0]
      case Literal(byte) => ExpandAppend(a[1..], b, out + [byte]);
      case Copy(length, distance) => ExpandAppend(a[1..], b, CopyMatch(out, distance, length));
    }
  }

  // ---- Copying in place ----

  /** The in-place copy loop; source and target may overlap. */
  method CopyInPlace(output: array<Byte>, offset: nat, distance: nat, length: nat)
    requires 1 <= distance <= offset && offset + length <= output.Length
    modifies output
    ensures output[..offset + length] == CopyMatch(old(output[..offset]), distance, length)
    ensures output[offset + length..] == old(output[offset + length..])
  {
    var source: nat := offset - distance;
    var target: nat := offset;
    for k := 0 to length
      invariant source == offset - distance + k && target == offset + k
      invariant forall i :: 0 <= i < offset ==> output[i] == old(output[i])
      invariant forall i :: offset <= i < target ==> output[i] == output[i - distance]
      invariant forall i :: target <= i < output.Length ==> output[i] == old(output[i])
    {
      output[target] := output[source];
      source := source + 1;
      target := target + 1;
    }
    CopyMatchUnique(old(output[..offset]), distance, length, output[..offset + length]);
  }

  /** The output buffer holds `out` up to its length and is otherwise unchanged. */
  twostate predicate Written(output: array<Byte>, out: seq<Byte>)
    reads output
  {
    && |out| <= output.Length
    && (forall i :: 0 <= i < |out| ==> output[i] == out[i])
    && (forall i :: |out| <= i < output.Length ==> output[i] == old(output[i]))
  }

  /** Copies a match behind the bytes `out`. */
  method AppendMatch(output: array<Byte>, offset: nat, distance: nat, length: nat, ghost out: seq<Byte>)
    requires 1 <= distance <= offset == |out| && offset + length <= output.Length
    requires forall i :: 0 <= i < |out| ==> output[i] == out[i]
    modifies output
    ensures Written(output, CopyMatch(out, distance, length))
  {
    assert output[..offset] == out;
    CopyInPlace(output, offset, distance, length);
    assert output[..offset + length] == CopyMatch(out, distance, length);
    assert forall i :: offset + length <= i < output.Length ==> output[i] == output[offset + length..][i - (offset + length)];
  }
}
