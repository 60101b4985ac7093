/** What each parser does to the remaining text: the reference semantics that
    the imperative engine (module Engine) is proved to follow. Every loop of
    parsing.py becomes a recursive function whose parameters are the loop's
    variables: the remaining text and the accumulator. */
module Semantics {
  import opened Values
  import opened Parsers

  /** The outcome of `p.parse(input)` on an input whose remaining text is
      `s`. Whatever is left afterwards is a suffix of `s`, and a
      string-valued parser returns text. */
  function Run(p: Parser, s: string): (o: Outcome)
    requires WellTyped(p)
    ensures !o.Diverges? ==> Suffix(RestOf(o), s)
    ensures o.Success? && StringValued(p) ==> o.result.value.Text?
    decreases p, 1, 0, 0
  {
    match p
    case Constant(t) => ConstantRun(t, s)
    case Many(q) => ManyLoop(q, s, "")
    case Not(q) => NotRun(q, s)
    case OneOf(ps) => OneOfLoop(ps, 0, s)
    case Optional(q) => OptionalRun(q, s)
    case SepBy(q, sep) => SepByLoop(q, sep, s, [])
    case Sequence(ps) => SequenceLoop(ps, 0, s, s, "")
    case Until(q) => UntilLoop(q, s, "")
  }

  /** constant's parse: the literal when the text starts with it, otherwise
      the error `mismatch` classifies, with nothing consumed. */
  function ConstantRun(t: string, s: string): (o: Outcome)
    ensures !o.Diverges? && Suffix(RestOf(o), s)
    ensures o.Success? ==> o.result.value.Text?
  {
    if t <= s then
      var rest := s[|t|..];
      SuffixOfDrop(s, |t|);
      var o := Success(Shape(Text(t), rest));
      assert RestOf(o) == rest;
      o
    else
      Failure(Mismatch(Repr(s)), s)
  }

  /** not_'s parse: the child is tried and rolled back; one character when
      it raised, a ParserError when it returned. */
  function NotRun(q: Parser, s: string): (o: Outcome)
    requires WellTyped(q)
    ensures !o.Diverges? ==> Suffix(RestOf(o), s)
    ensures o.Success? ==> o.result.value.Text?
    decreases Not(q), 0, 0, 0
  {
    match Run(q, s)
    case Diverges => Diverges
    case Success(_) => Failure(ParserError, s)
    case Failure(_, _) =>
      if |s| >= 1 then Success(Shape(Text(s[..1]), s[1..]))
      else Failure(EndOfInputError, s)
  }

  /** optional's parse: the child's result, made partial when text remains,
      or an empty partial result where the child's failure left the cursor. */
  function OptionalRun(q: Parser, s: string): (o: Outcome)
    requires WellTyped(q)
    ensures !o.Diverges? ==> Suffix(RestOf(o), s)
    ensures o.Success? && StringValued(q) ==> o.result.value.Text?
    decreases Optional(q), 0, 0, 0
  {
    match Run(q, s)
    case Diverges => Diverges
    case Success(r) =>
      if r.Rest() != "" then Success(Partial(r.value, r.Rest())) else Success(r)
    case Failure(_, rest) => Success(Partial(Text(""), rest))
  }

  /** many's `while input` loop with `parsed == acc`: stop with a complete
      result when the input is exhausted, with a partial one at the first
      failure; an iteration that succeeds without consuming repeats forever. */
  function ManyLoop(q: Parser, s: string, acc: string): (o: Outcome)
    requires WellTyped(q) && StringValued(q)
    ensures !o.Diverges? ==> Suffix(RestOf(o), s)
    ensures o.Success? ==> o.result.value.Text?
    decreases Many(q), 0, |s|, 0
  {
    if s == "" then Success(Complete(Text(acc)))
    else
      match Run(q, s)
      case Diverges => Diverges
      case Failure(_, rest) => Success(Partial(Text(acc), rest))
      case Success(r) =>
        if |r.Rest()| < |s| then
          var o := ManyLoop(q, r.Rest(), acc + r.value.s);
          if o.Diverges? then o else SuffixTransitive(RestOf(o), r.Rest(), s); o
        else Diverges
  }

  /** one_of's `for parser in self.parsers` loop from child `i` on: the first
      child that returns decides; a child that raises hands the cursor, as it
      left it, to the next one; when all have raised, a plain ParserError. */
  function OneOfLoop(ps: seq<Parser>, i: nat, s: string): (o: Outcome)
    requires i <= |ps|
    requires forall j :: 0 <= j < |ps| ==> WellTyped(ps[j])
    ensures !o.Diverges? ==> Suffix(RestOf(o), s)
    ensures o.Success? && (forall j :: 0 <= j < |ps| ==> StringValued(ps[j])) ==> o.result.value.Text?
    decreases OneOf(ps), 0, |ps| - i, 0
  {
    if i == |ps| then Failure(ParserError, s)
    else
      match Run(ps[i], s)
      case Failure(_, rest) =>
        var o := OneOfLoop(ps, i + 1, rest);
        if o.Diverges? then o else SuffixTransitive(RestOf(o), rest, s); o
      case other => other
  }

  /** The body of sep_by's `try` block: the separator (when an element has
      already been collected), then the element parser. */
  function SepByAttempt(q: Parser, sep: Parser, s: string, withSeparator: bool): (o: Outcome)
    requires WellTyped(q) && WellTyped(sep)
    ensures !o.Diverges? ==> Suffix(RestOf(o), s)
    decreases SepBy(q, sep), 0, |s|, 0
  {
    if withSeparator then
      match Run(sep, s)
      case Success(r) =>
        var o := Run(q, r.Rest());
        if o.Diverges? then o else SuffixTransitive(RestOf(o), r.Rest(), s); o
      case other => other
    else Run(q, s)
  }

  /** sep_by's `while input` loop with `parsed == items`: a failed attempt is
      rolled back and ends the loop; a successful one is committed. From the
      second element on, an attempt that consumes nothing repeats forever. */
  function SepByLoop(q: Parser, sep: Parser, s: string, items: seq<Value>): (o: Outcome)
    requires WellTyped(q) && WellTyped(sep)
    ensures !o.Diverges? ==> Suffix(RestOf(o), s)
    ensures o.Success? ==> o.result.value.Items?
    decreases SepBy(q, sep), 0, |s|, if items == [] then 2 else 1
  {
    if s == "" then Success(Complete(Items(items)))
    else
      match SepByAttempt(q, sep, s, items != [])
      case Diverges => Diverges
      case Failure(_, _) => Success(Shape(Items(items), s))
      case Success(r) =>
        if items != [] && |r.Rest()| == |s| then Diverges
        else
          var o := SepByLoop(q, sep, r.Rest(), items + [r.value]);
          if o.Diverges? then o else SuffixTransitive(RestOf(o), r.Rest(), s); o
  }

  /** sequence's `for parser in self.parsers` loop from child `i` on, over a
      checkpoint taken at `s0`: the first child that raises rolls back to `s0`
      and the error is re-raised; otherwise the results are joined. */
  function SequenceLoop(ps: seq<Parser>, i: nat, s0: string, s: string, acc: string): (o: Outcome)
    requires i <= |ps| && Suffix(s, s0)
    requires forall j :: 0 <= j < |ps| ==> StringValued(ps[j]) && WellTyped(ps[j])
    ensures !o.Diverges? ==> Suffix(RestOf(o), s0)
    ensures o.Success? ==> o.result.value.Text?
    decreases Sequence(ps), 0, |ps| - i, 0
  {
    if i == |ps| then Success(Shape(Text(acc), s))
    else
      match Run(ps[i], s)
      case Diverges => Diverges
      case Failure(e, _) => Failure(e, s0)
      case Success(r) =>
        SuffixTransitive(r.Rest(), s, s0);
        SequenceLoop(ps, i + 1, s0, r.Rest(), acc + r.value.s)
  }

  /** until's `while input` loop with `parsed == acc`: probe `q` under a
      checkpoint that is always rolled back; stop where the probe succeeds,
      re-raise an end-of-input from the probe, otherwise consume one
      character. */
  function UntilLoop(q: Parser, s: string, acc: string): (o: Outcome)
    requires WellTyped(q)
    ensures !o.Diverges? ==> Suffix(RestOf(o), s)
    ensures o.Success? ==> o.result.value.Text?
    decreases Until(q), 0, |s|, 0
  {
    if s == "" then Success(Complete(Text(acc)))
    else
      match Run(q, s)
      case Diverges => Diverges
      case Success(_) => Success(Partial(Text(acc), s))
      case Failure(e, _) =>
        if Catches(EndOfInputError, e) then Failure(e, s)
        else
          var o := UntilLoop(q, s[1..], acc + s[..1]);
          if o.Diverges? then o else SuffixTransitive(RestOf(o), s[1..], s); o
  }
}
