/** The parser tree: one constructor per parser class of parsing.py. */
module Parsers {

  /** `constant`, `many`, `not_`, `one_of`, `optional`, `sep_by`,
      `sequence` and `until`. The children are already coerced, as the
      combinator constructors do (UnaryCombinator, BinaryCombinator,
      MultaryCombinator). */
  datatype Parser =
    | Constant(literal: string)
    | Many(parser: Parser)
    | Not(parser: Parser)
    | OneOf(parsers: seq<Parser>)
    | Optional(parser: Parser)
    | SepBy(parser: Parser, separator: Parser)
    | Sequence(parsers: seq<Parser>)
    | Until(parser: Parser)

  /** The parser always produces text: everything but sep_by, which produces
      a list, and the pass-through combinators over a sep_by. */
  predicate StringValued(p: Parser) {
    match p
    case SepBy(_, _) => false
    case OneOf(ps) => forall i :: 0 <= i < |ps| ==> StringValued(ps[i])
    case Optional(q) => StringValued(q)
    case _ => true
  }

  /** The trees the model covers: `many` and `sequence` join their children's
      results as strings, so their children must be string-valued. */
  predicate WellTyped(p: Parser) {
    match p
    case Constant(_) => true
    case Many(q) => StringValued(q) && WellTyped(q)
    case Not(q) => WellTyped(q)
    case OneOf(ps) => forall i :: 0 <= i < |ps| ==> WellTyped(ps[i])
    case Optional(q) => WellTyped(q)
    case SepBy(q, sep) => WellTyped(q) && WellTyped(sep)
    case Sequence(ps) => forall i :: 0 <= i < |ps| ==> StringValued(ps[i]) && WellTyped(ps[i])
    case Until(q) => WellTyped(q)
  }

  /** Parsers that leave the cursor untouched whenever they raise: constant,
      not_ and sequence restore it themselves; many, optional and sep_by never
      raise; one_of is atomic when its children are; until is not. */
  predicate Atomic(p: Parser) {
    match p
    case Until(_) => false
    case OneOf(ps) => forall i :: 0 <= i < |ps| ==> Atomic(ps[i])
    case _ => true
  }

  /** `n` copies of `p`, as `[self for i in range(0, n)]` builds them. */
  function Copies(p: Parser, n: int): (ps: seq<Parser>)
    ensures |ps| == if n < 0 then 0 else n
    ensures forall i :: 0 <= i < |ps| ==> ps[i] == p
  {
    if n <= 0 then [] else Copies(p, n - 1) + [p]
  }
}
