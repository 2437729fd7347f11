/**
 * The second stage of bzip2: move-to-front positions as symbols, with runs of position zero written in
 * bijective base two with the digits 0 and 1.
 */
module ZeroRuns {
  import opened Words
  import opened MoveToFront
  import opened RunLength

  // ---- Bijective base two ----

  /** The digits, least significant first, as an ordinary binary number. */
  function DigitValue(digits: seq<nat>): nat {
    if |digits| == 0 then 0 else digits[0] + 2 * DigitValue(digits[1..])
  }

  /** The number that the digits stand for. */
  function RunValue(digits: seq<nat>): nat {
    Pow2(|digits|) + DigitValue(digits) - 1
  }

  /** The digits of n. */
  function Digits(n: nat): (d: seq<nat>)
    ensures forall i :: 0 <= i < |d| ==> d[i] < 2
  {
    if n == 0 then [] else [(n - 1) % 2] + Digits((n - 1) / 2)
  }

  lemma {:induction false} RunValueOfDigits(n: nat)
    ensures RunValue(Digits(n)) == n
  {
    if n > 0 {
      RunValueOfDigits((n - 1) / 2);
      assert Digits(n)[1..] == Digits((n - 1) / 2);
    }
  }

  lemma {:induction false} DigitValueSnoc(digits: seq<nat>, d: nat)
    ensures DigitValue(digits + [d]) == DigitValue(digits) + Shl(d, |digits|)
  {
    if |digits| == 0 {
      assert (digits + [d])[1..] == [];
    } else {
      DigitValueSnoc(digits[1..], d);
      assert (digits + [d])[1..] == digits[1..] + [d];
    }
  }

  lemma {:induction false} DigitValueBound(digits: seq<nat>)
    requires forall i :: 0 <= i < |digits| ==> digits[i] < 2
    ensures DigitValue(digits) < Pow2(|digits|)
  {
    if |digits| > 0 { DigitValueBound(digits[1..]); }
  }

  /** The accumulator of the decoder: digits are or-ed in at their position. */
  lemma AccumulateDigit(digits: seq<nat>, d: nat)
    requires (forall i :: 0 <= i < |digits| ==> digits[i] < 2) && d < 2
    ensures BitOr(DigitValue(digits), Shl(d, |digits|)) == DigitValue(digits + [d])
  {
    DigitValueBound(digits);
    OrDisjoint(DigitValue(digits), d, |digits|);
    DigitValueSnoc(digits, d);
  }

  lemma FinishRun(digits: seq<nat>)
    requires forall i :: 0 <= i < |digits| ==> digits[i] < 2
    ensures BitOr(Shl(1, |digits|), DigitValue(digits)) - 1 == RunValue(digits)
  {
    DigitValueBound(digits);
    OrDisjoint(DigitValue(digits), 1, |digits|);
    ShlOne(|digits|);
  }

  // ---- Symbols ----

  function Top(stack: seq<Byte>): Byte {
    if |stack| > 0 then stack[0] else 0
  }

  /** The bytes that a symbol list stands for, after the pending digits of a zero run. */
  function Interpret(symbols: seq<nat>, stack: seq<Byte>, digits: seq<nat>): seq<Byte>
    requires forall i :: 0 <= i < |symbols| ==> symbols[i] <= |stack|
    decreases |symbols|
  {
    if |symbols| == 0 then Repeat(Top(stack), RunValue(digits))
    else if symbols[0] < 2 then Interpret(symbols[1..], stack, digits + [symbols[0]])
    else
      var i := symbols[0] - 1;
      Repeat(Top(stack), RunValue(digits)) + [stack[i]] + Interpret(symbols[1..], Front(stack, i), [])
  }

  /** The encoder, with a number of zero positions pending. */
  function Symbols(block: seq<Byte>, stack: seq<Byte>, zeros: nat): (r: seq<nat>)
    requires forall i :: 0 <= i < |block| ==> block[i] in stack
    ensures |stack| > 0 ==> forall i :: 0 <= i < |r| ==> r[i] <= |stack|
    decreases |block|
  {
    if |block| == 0 then Digits(zeros)
    else
      var i := IndexOf(stack, block[0]);
      FrontPermutes(stack, i);
      if i == 0 then Symbols(block[1..], stack, zeros + 1)
      else Digits(zeros) + [i + 1] + Symbols(block[1..], Front(stack, i), 0)
  }

  lemma {:induction false} InterpretDigits(d: seq<nat>, rest: seq<nat>, stack: seq<Byte>, digits: seq<nat>)
    requires (forall i :: 0 <= i < |d| ==> d[i] < 2) && |stack| > 0
    requires forall i :: 0 <= i < |rest| ==> rest[i] <= |stack|
    ensures Interpret(d + rest, stack, digits) == Interpret(rest, stack, digits + d)
    decreases |d|
  {
    if |d| == 0 {
      assert d + rest == rest && digits + d == digits;
    } else {
      assert (d + rest)[1..] == d[1..] + rest;
      InterpretDigits(d[1..], rest, stack, digits + [d[0]]);
      assert digits + [d[0]] + d[1..] == digits + d;
    }
  }

  /** Reading back what the encoder wrote. */
  lemma {:induction false} InterpretSymbols(block: seq<Byte>, stack: seq<Byte>, zeros: nat)
    requires |stack| > 0 && forall i :: 0 <= i < |block| ==> block[i] in stack
    ensures Interpret(Symbols(block, stack, zeros), stack, []) == Repeat(stack[0], zeros) + block
    decreases |block|
  {
    hide Front, Digits, RunValue;
    RunValueOfDigits(zeros);
    if |block| == 0 {
      InterpretDigits(Digits(zeros), [], stack, []);
      assert Digits(zeros) + [] == Digits(zeros) && [] + Digits(zeros) == Digits(zeros);
    } else {
      var i := IndexOf(stack, block[0]);
      FrontPermutes(stack, i);
      if i == 0 {
        InterpretSymbols(block[1..], stack, zeros + 1);
        assert Repeat(stack[0], zeros + 1) + block[1..] == Repeat(stack[0], zeros) + block;
      } else {
        InterpretSymbols(block[1..], Front(stack, i), 0);
        InterpretPosition(zeros, i, Symbols(block[1..], Front(stack, i), 0), stack);
        assert Repeat(Front(stack, i)[0], 0) + block[1..] == block[1..];
        assert [block[0]] + block[1..] == block;
        assert Repeat(stack[0], zeros) + ([block[0]] + block[1..]) == Repeat(stack[0], zeros) + block;
      }
    }
  }

  lemma InterpretPosition(zeros: nat, i: nat, rest: seq<nat>, stack: seq<Byte>)
    requires 0 < i < |stack| && forall k :: 0 <= k < |rest| ==> rest[k] <= |stack|
    ensures Interpret(Digits(zeros) + [i + 1] + rest, stack, []) ==
            Repeat(stack[0], zeros) + ([stack[i]] + Interpret(rest, Front(stack, i), []))
  {
    hide Interpret, Digits, RunValue, Front;
    RunValueOfDigits(zeros);
    var tail := [i + 1] + rest;
    assert Digits(zeros) + [i + 1] + rest == Digits(zeros) + tail;
    InterpretDigits(Digits(zeros), tail, stack, []);
    assert [] + Digits(zeros) == Digits(zeros);
    InterpretCons(i, rest, stack, Digits(zeros));
  }

  lemma InterpretCons(i: nat, rest: seq<nat>, stack: seq<Byte>, digits: seq<nat>)
    requires 0 < i < |stack| && forall k :: 0 <= k < |rest| ==> rest[k] <= |stack|
    ensures Interpret([i + 1] + rest, stack, digits) ==
            Repeat(stack[0], RunValue(digits)) + ([stack[i]] + Interpret(rest, Front(stack, i), []))
  {
    hide RunValue, Front;
    assert ([i + 1] + rest)[1..] == rest;
  }

  /** Symbol stage round trip for every block over the stack. */
  lemma SymbolsRoundTrip(block: seq<Byte>, stack: seq<Byte>)
    requires |stack| > 0 && forall i :: 0 <= i < |block| ==> block[i] in stack
    ensures Interpret(Symbols(block, stack, 0), stack, []) == block
  {
    InterpretSymbols(block, stack, 0);
    assert Repeat(stack[0], 0) + block == block;
  }
}
