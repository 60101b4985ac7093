/** The parse methods of parsing.py, driving the shared cursor in place. Each
    is proved to compute what Semantics.Run says, to keep `_consumed + value`
    fixed, and, whenever it returns or raises, to leave the checkpoint stack
    as it found it (every `begin` matched by one `commit` or `rollback`). */
module Engine {
  import opened Values
  import opened Parsers
  import opened Semantics
  import opened Cursor
  import opened Coercion

  /** `p.parse(input)`, dispatched on the parser's class. */
  method Parse(p: Parser, input: Input) returns (o: Outcome)
    requires WellTyped(p) && input.Valid()
    modifies input
    ensures input.Valid()
    ensures input.consumed + input.value == old(input.consumed + input.value)
    ensures o == Run(p, old(input.value))
    ensures !o.Diverges? ==> input.value == RestOf(o) && input.stack == old(input.stack)
    decreases p, 1
  {
    match p
    case Constant(t) => o := ParseConstant(t, input);
    case Many(q) => o := ParseMany(q, input);
    case Not(q) => o := ParseNot(q, input);
    case OneOf(ps) => o := ParseOneOf(ps, input);
    case Optional(q) => o := ParseOptional(q, input);
    case SepBy(q, sep) => o := ParseSepBy(q, sep, input);
    case Sequence(ps) => o := ParseSequence(ps, input);
    case Until(q) => o := ParseUntil(q, input);
  }

  /** `Parser.__call__` on text: parse a fresh Input over it. */
  method Call(p: Parser, text: string) returns (o: Outcome)
    requires WellTyped(p)
    ensures o == Run(p, text)
  {
    var input := new Input(text);
    o := Parse(p, input);
  }

  /** `input.match(x)`: coerce `x` to a parser and run it on this cursor; a
      TypeError from coerce leaves the cursor alone. */
  method Match(x: HostValue, input: Input) returns (r: Converted<Outcome>)
    requires input.Valid()
    requires Coerce(x).Converted? ==> WellTyped(Coerce(x).value)
    modifies input
    ensures input.Valid()
    ensures input.consumed + input.value == old(input.consumed + input.value)
    ensures r.Converted? <==> Coercible(x)
    ensures r.Converted? ==> r.value == Run(Coerce(x).value, old(input.value))
    ensures r.Converted? && !r.value.Diverges? ==> input.value == RestOf(r.value)
    ensures !r.Converted? || !r.value.Diverges? ==> input.stack == old(input.stack)
    ensures r.TypeError? ==> input.value == old(input.value) && input.consumed == old(input.consumed)
  {
    match Coerce(x)
    case TypeError =>
      r := TypeError;
    case Converted(p) =>
      var o := Parse(p, input);
      r := Converted(o);
  }

  /** constant.parse: consume the literal when the input starts with it,
      otherwise raise the error `mismatch` classifies. */
  method ParseConstant(t: string, input: Input) returns (o: Outcome)
    requires input.Valid()
    modifies input
    ensures input.Valid()
    ensures input.consumed + input.value == old(input.consumed + input.value)
    ensures o == Run(Constant(t), old(input.value))
    ensures input.value == RestOf(o) && input.stack == old(input.stack)
    decreases Constant(t), 0
  {
    if t <= input.value {
      var taken := input.Consume(|t|);
      o := Success(Shape(Text(taken.value), input.value));
    } else {
      o := Failure(Mismatch(Repr(input.value)), input.value);
    }
  }

  /** many.parse: apply the child while input remains, joining its results,
      until it raises. */
  method ParseMany(q: Parser, input: Input) returns (o: Outcome)
    requires WellTyped(Many(q)) && input.Valid()
    modifies input
    ensures input.Valid()
    ensures input.consumed + input.value == old(input.consumed + input.value)
    ensures o == Run(Many(q), old(input.value))
    ensures !o.Diverges? ==> input.value == RestOf(o) && input.stack == old(input.stack)
    decreases Many(q), 0
  {
    ghost var s0, total := input.value, input.consumed + input.value;
    var parsed := "";
    while input.NonEmpty()
      invariant input.Valid() && input.consumed + input.value == total
      invariant input.stack == old(input.stack)
      invariant Run(Many(q), s0) == ManyLoop(q, input.value, parsed)
      decreases |input.value|
    {
      var before := input.value;
      var r := Parse(q, input);
      match r {
        case Diverges =>
          return Diverges;
        case Failure(_, _) =>
          return Success(Partial(Text(parsed), input.value));
        case Success(res) =>
          if |input.value| == |before| {
            return Diverges;
          }
          parsed := parsed + res.value.s;
      }
    }
    o := Success(Complete(Text(parsed)));
  }

  /** not_.parse: try the child under a checkpoint and roll back; if it
      raised, consume and return one character, otherwise raise. */
  method ParseNot(q: Parser, input: Input) returns (o: Outcome)
    requires WellTyped(Not(q)) && input.Valid()
    modifies input
    ensures input.Valid()
    ensures input.consumed + input.value == old(input.consumed + input.value)
    ensures o == Run(Not(q), old(input.value))
    ensures !o.Diverges? ==> input.value == RestOf(o) && input.stack == old(input.stack)
    decreases Not(q), 0
  {
    input.Begin();
    var r := Parse(q, input);
    if r.Diverges? {
      return Diverges;
    }
    input.Rollback();
    if r.Success? {
      return Failure(ParserError, input.value);
    }
    var taken := input.Consume(1);
    if taken.Raised? {
      return Failure(taken.error, input.value);
    }
    o := Success(Shape(Text(taken.value), input.value));
  }

  /** one_of.parse: return the first child result; a child that raises is
      passed over without restoring the cursor. */
  method ParseOneOf(ps: seq<Parser>, input: Input) returns (o: Outcome)
    requires WellTyped(OneOf(ps)) && input.Valid()
    modifies input
    ensures input.Valid()
    ensures input.consumed + input.value == old(input.consumed + input.value)
    ensures o == Run(OneOf(ps), old(input.value))
    ensures !o.Diverges? ==> input.value == RestOf(o) && input.stack == old(input.stack)
    decreases OneOf(ps), 0
  {
    ghost var s0, total := input.value, input.consumed + input.value;
    for i := 0 to |ps|
      invariant input.Valid() && input.consumed + input.value == total
      invariant input.stack == old(input.stack)
      invariant Run(OneOf(ps), s0) == OneOfLoop(ps, i, input.value)
    {
      var r := Parse(ps[i], input);
      if !r.Failure? {
        return r;
      }
    }
    o := Failure(ParserError, input.value);
  }

  /** optional.parse: the child's result, or an empty partial result when
      the child raises. */
  method ParseOptional(q: Parser, input: Input) returns (o: Outcome)
    requires WellTyped(Optional(q)) && input.Valid()
    modifies input
    ensures input.Valid()
    ensures input.consumed + input.value == old(input.consumed + input.value)
    ensures o == Run(Optional(q), old(input.value))
    ensures !o.Diverges? ==> input.value == RestOf(o) && input.stack == old(input.stack)
    decreases Optional(q), 0
  {
    var r := Parse(q, input);
    match r
    case Diverges =>
      o := Diverges;
    case Success(res) =>
      if input.NonEmpty() {
        o := Success(Partial(res.value, input.value));
      } else {
        o := r;
      }
    case Failure(_, _) =>
      o := Success(Partial(Text(""), input.value));
  }

  /** sep_by.parse: collect elements, each attempt (separator first once an
      element is collected) under its own checkpoint, committed on success and
      rolled back on failure, which ends the loop. */
  method ParseSepBy(q: Parser, sep: Parser, input: Input) returns (o: Outcome)
    requires WellTyped(SepBy(q, sep)) && input.Valid()
    modifies input
    ensures input.Valid()
    ensures input.consumed + input.value == old(input.consumed + input.value)
    ensures o == Run(SepBy(q, sep), old(input.value))
    ensures !o.Diverges? ==> input.value == RestOf(o) && input.stack == old(input.stack)
    decreases SepBy(q, sep), 0
  {
    ghost var s0, total := input.value, input.consumed + input.value;
    var parsed: seq<Value> := [];
    while input.NonEmpty()
      invariant input.Valid() && input.consumed + input.value == total
      invariant input.stack == old(input.stack)
      invariant Run(SepBy(q, sep), s0) == SepByLoop(q, sep, input.value, parsed)
      decreases |input.value|, if parsed == [] then 1 else 0
    {
      var before := input.value;
      input.Begin();
      var attempt: Outcome;
      if parsed != [] {
        attempt := Parse(sep, input);
        if attempt.Success? {
          attempt := Parse(q, input);
        }
      } else {
        attempt := Parse(q, input);
      }
      assert attempt == SepByAttempt(q, sep, before, parsed != []);
      match attempt {
        case Diverges =>
          return Diverges;
        case Failure(_, _) =>
          input.Rollback();
          break;
        case Success(res) =>
          if parsed != [] && |input.value| == |before| {
            return Diverges;
          }
          parsed := parsed + [res.value];
          input.Commit();
      }
    }
    o := Success(Shape(Items(parsed), input.value));
  }

  /** sequence.parse: under one checkpoint, run the children in order and
      join their results; the first child that raises rolls the whole
      sequence back and its error is re-raised. */
  method ParseSequence(ps: seq<Parser>, input: Input) returns (o: Outcome)
    requires WellTyped(Sequence(ps)) && input.Valid()
    modifies input
    ensures input.Valid()
    ensures input.consumed + input.value == old(input.consumed + input.value)
    ensures o == Run(Sequence(ps), old(input.value))
    ensures !o.Diverges? ==> input.value == RestOf(o) && input.stack == old(input.stack)
    decreases Sequence(ps), 0
  {
    ghost var s0, total := input.value, input.consumed + input.value;
    input.Begin();
    var result := "";
    for i := 0 to |ps|
      invariant input.Valid() && input.consumed + input.value == total
      invariant input.stack == old(input.stack) + [(s0, old(input.consumed))]
      invariant Suffix(input.value, s0)
      invariant Run(Sequence(ps), s0) == SequenceLoop(ps, i, s0, input.value, result)
    {
      ghost var before := input.value;
      var r := Parse(ps[i], input);
      match r {
        case Diverges =>
          return Diverges;
        case Failure(e, _) =>
          input.Rollback();
          return Failure(e, input.value);
        case Success(res) =>
          SuffixTransitive(input.value, before, s0);
          result := result + res.value.s;
      }
    }
    input.Commit();
    o := Success(Shape(Text(result), input.value));
  }

  /** until.parse: probe the child under a checkpoint that is always rolled
      back; return what was consumed where the probe succeeds, re-raise an
      end-of-input from the probe, and otherwise consume one character. */
  method ParseUntil(q: Parser, input: Input) returns (o: Outcome)
    requires WellTyped(Until(q)) && input.Valid()
    modifies input
    ensures input.Valid()
    ensures input.consumed + input.value == old(input.consumed + input.value)
    ensures o == Run(Until(q), old(input.value))
    ensures !o.Diverges? ==> input.value == RestOf(o) && input.stack == old(input.stack)
    decreases Until(q), 0
  {
    ghost var s0, total := input.value, input.consumed + input.value;
    var parsed := "";
    while input.NonEmpty()
      invariant input.Valid() && input.consumed + input.value == total
      invariant input.stack == old(input.stack)
      invariant Run(Until(q), s0) == UntilLoop(q, input.value, parsed)
      decreases |input.value|
    {
      input.Begin();
      var r := Parse(q, input);
      if r.Diverges? {
        return Diverges;
      }
      input.Rollback();
      if r.Success? {
        return Success(Partial(Text(parsed), input.value));
      }
      if Catches(EndOfInputError, r.error) {
        return Failure(r.error, input.value);
      }
      var taken := input.Consume(1);
      parsed := parsed + taken.value;
    }
    o := Success(Complete(Text(parsed)));
  }
}
