/** The backtracking cursor `Input` of parsing.py: the remaining text, the
    text consumed so far, and a stack of checkpoints. It is the only state
    that the engine changes. */
module Cursor {
  import opened Values

  class Input {
    /** The remaining text (`value`). */
    var value: string
    /** The text consumed so far (`_consumed`). */
    var consumed: string
    /** Saved `(value, _consumed)` pairs (`_stack`), the newest last. */
    var stack: seq<(string, string)>

    /** Every checkpoint was taken over the same text as the current state:
        `_consumed + value` is the same for all of them. */
    ghost predicate Valid()
      reads this
    {
      forall i :: 0 <= i < |stack| ==> stack[i].1 + stack[i].0 == consumed + value
    }

    /** The truth value of an Input: some text remains. */
    predicate NonEmpty(): (b: bool)
      reads this
      ensures b <==> |value| > 0
    {
      value != ""
    }

    /** `Input(text)`: nothing consumed yet and no checkpoint open. */
    constructor (text: string)
      ensures Valid()
      ensures value == text && consumed == "" && stack == []
    {
      value := text;
      consumed := "";
      stack := [];
    }

    /** `begin`: push a checkpoint of the current state. */
    method Begin()
      requires Valid()
      modifies this
      ensures Valid()
      ensures stack == old(stack) + [(old(value), old(consumed))]
      ensures value == old(value) && consumed == old(consumed)
    {
      stack := stack + [(value, consumed)];
    }

    /** `commit`: drop the newest checkpoint and keep the current state. */
    method Commit()
      requires Valid() && |stack| > 0
      modifies this
      ensures Valid()
      ensures stack == old(stack)[..|old(stack)| - 1]
      ensures value == old(value) && consumed == old(consumed)
    {
      stack := stack[..|stack| - 1];
    }

    /** `rollback`: pop the newest checkpoint and restore the state it saved.
        The text `consumed + value` is the same afterwards. */
    method Rollback()
      requires Valid() && |stack| > 0
      modifies this
      ensures Valid()
      ensures (value, consumed) == old(stack[|stack| - 1])
      ensures stack == old(stack)[..|old(stack)| - 1]
      ensures consumed + value == old(consumed + value)
    {
      assert stack[|stack| - 1].1 + stack[|stack| - 1].0 == consumed + value;
      value, consumed := stack[|stack| - 1].0, stack[|stack| - 1].1;
      stack := stack[..|stack| - 1];
    }

    /** `consume(n)`: with enough text, move the first `n` characters from
        `value` to `_consumed` and return them; otherwise raise
        EndOfInputError and change nothing. */
    method Consume(n: nat) returns (r: Fallible<string>)
      requires Valid()
      modifies this
      ensures Valid() && stack == old(stack)
      ensures consumed + value == old(consumed + value)
      ensures n <= |old(value)| ==>
                r == Ok(old(value)[..n]) && value == old(value)[n..] && consumed == old(consumed) + r.value
      ensures n > |old(value)| ==>
                r == Raised(EndOfInputError) && value == old(value) && consumed == old(consumed)
    {
      if |value| >= n {
        var taken := value[0..n];
        assert consumed + taken + value[n..] == consumed + value by {
          assert taken + value[n..] == value;
        }
        consumed := consumed + taken;
        value := value[n..];
        r := Ok(taken);
      } else {
        r := Raised(EndOfInputError);
      }
    }
  }

  /** A checkpoint taken with `begin` and closed with `rollback` undoes
      whatever was consumed in between. */
  method BeginThenRollback(input: Input, n: nat)
    requires input.Valid()
    modifies input
    ensures input.Valid()
    ensures input.value == old(input.value) && input.consumed == old(input.consumed)
    ensures input.stack == old(input.stack)
  {
    input.Begin();
    var _ := input.Consume(n);
    input.Rollback();
  }
}
