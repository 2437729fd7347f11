/** Move-to-front coding over a stack of distinct or repeated bytes. */
module MoveToFront {
  import opened Words

  /** The stack after entry i moved to its front. */
  function Front(stack: seq<Byte>, i: nat): (r: seq<Byte>)
    requires i < |stack|
    ensures |r| == |stack| && r[0] == stack[i]
    ensures forall j :: 1 <= j <= i ==> r[j] == stack[j - 1]
    ensures forall j :: i < j < |r| ==> r[j] == stack[j]
  {
    [stack[i]] + stack[..i] + stack[i + 1..]
  }

  /** Front is a permutation. */
  lemma FrontPermutes(stack: seq<Byte>, i: nat)
    requires i < |stack|
    ensures multiset(Front(stack, i)) == multiset(stack)
    ensures forall b :: b in Front(stack, i) <==> b in stack
  {
    var before, after := stack[..i], stack[i + 1..];
    assert stack == before + [stack[i]] + after;
    assert multiset(stack) == multiset(before) + multiset([stack[i]]) + multiset(after);
    assert multiset(Front(stack, i)) == multiset([stack[i]]) + multiset(before) + multiset(after);
    hide Front;
    forall b ensures b in Front(stack, i) <==> b in stack {
      assert b in Front(stack, i) <==> b in multiset(Front(stack, i));
      assert b in stack <==> b in multiset(stack);
    }
  }

  /** First position of b in the stack. */
  function IndexOf(stack: seq<Byte>, b: Byte): (i: nat)
    requires b in stack
    ensures i < |stack| && stack[i] == b
  {
    if stack[0] == b then 0 else 1 + IndexOf(stack[1..], b)
  }
}
