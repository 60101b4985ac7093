/** `Parser.coerce`, the combinator constructors that apply it, and the
    operators of class Parser (`+`, `*`, `|` and their reflected forms,
    `separated_by`). Operators build new trees: the in-place mutation of an
    operand sequence by `+` is not modelled (see README). */
module Coercion {
  import opened Parsers

  /** The host objects the engine may be handed where a parser is expected. */
  datatype HostValue =
    | ParserObj(p: Parser)
    | StrObj(s: string)
    | ResultObj(text: string)
    | ListObj(items: seq<HostValue>)
    | OtherObj

  /** A conversion that may raise TypeError. */
  datatype Converted<T> = Converted(value: T) | TypeError

  /** The objects coerce accepts: a parser, a string, a result, or a list or
      tuple of such objects. */
  predicate Coercible(x: HostValue) {
    match x
    case OtherObj => false
    case ListObj(items) => forall i :: 0 <= i < |items| ==> Coercible(items[i])
    case _ => true
  }

  /** `Parser.coerce(obj)`: it raises TypeError exactly when `obj` or an
      element of a list inside it is not coercible; a list becomes a
      sequence of the coerced elements, in order. */
  function Coerce(x: HostValue): (r: Converted<Parser>)
    ensures r.Converted? <==> Coercible(x)
    ensures x.ListObj? && r.Converted? ==>
              r.value.Sequence? && |r.value.parsers| == |x.items| &&
              forall i :: 0 <= i < |x.items| ==> Coerce(x.items[i]) == Converted(r.value.parsers[i])
    decreases x, 1
  {
    match x
    case ParserObj(p) => Converted(p)
    case StrObj(s) => Converted(Constant(s))
    case ResultObj(t) => Converted(Constant(t))
    case ListObj(items) =>
      var ps := CoerceAll(items);
      if ps.Converted? then Converted(Sequence(ps.value)) else TypeError
    case OtherObj => TypeError
  }

  /** `[self.coerce(p) for p in parsers]`: the coerced elements in order, or
      TypeError as soon as one element is not coercible. */
  function CoerceAll(xs: seq<HostValue>): (r: Converted<seq<Parser>>)
    ensures r.Converted? <==> forall i :: 0 <= i < |xs| ==> Coercible(xs[i])
    ensures r.Converted? ==>
              |r.value| == |xs| && forall i :: 0 <= i < |xs| ==> Coerce(xs[i]) == Converted(r.value[i])
    decreases xs, 0
  {
    if xs == [] then Converted([])
    else
      var head := Coerce(xs[0]);
      var tail := CoerceAll(xs[1..]);
      if head.Converted? && tail.Converted? then
        assert forall i :: 1 <= i < |xs| ==> xs[i] == xs[1..][i - 1];
        Converted([head.value] + tail.value)
      else
        assert !Coercible(xs[0]) || exists i :: 0 <= i < |xs[1..]| && !Coercible(xs[1..][i]);
        TypeError
  }

  /** The classes derived from UnaryCombinator. */
  datatype UnaryKind = ManyKind | NotKind | OptionalKind | UntilKind

  /** The classes derived from MultaryCombinator. */
  datatype MultaryKind = OneOfKind | SequenceKind

  /** `UnaryCombinator.__init__`: the combinator over the coerced child. */
  function Unary(k: UnaryKind, x: HostValue): (r: Converted<Parser>)
    ensures r.Converted? <==> Coercible(x)
    ensures r.Converted? ==> r.value.Many? || r.value.Not? || r.value.Optional? || r.value.Until?
    ensures r.Converted? ==> Coerce(x) == Converted(r.value.parser)
  {
    match Coerce(x)
    case TypeError => TypeError
    case Converted(p) =>
      Converted(match k
                case ManyKind => Many(p)
                case NotKind => Not(p)
                case OptionalKind => Optional(p)
                case UntilKind => Until(p))
  }

  /** `BinaryCombinator.__init__` for sep_by: both arguments coerced. */
  function Binary(x: HostValue, y: HostValue): (r: Converted<Parser>)
    ensures r.Converted? <==> Coercible(x) && Coercible(y)
    ensures r.Converted? ==>
              r.value.SepBy? && Coerce(x) == Converted(r.value.parser) &&
              Coerce(y) == Converted(r.value.separator)
  {
    match (Coerce(x), Coerce(y))
    case (Converted(p), Converted(sep)) => Converted(SepBy(p, sep))
    case _ => TypeError
  }

  /** `MultaryCombinator.__init__` for one_of and sequence: every element
      coerced, in order. */
  function Multary(k: MultaryKind, xs: seq<HostValue>): (r: Converted<Parser>)
    ensures r.Converted? <==> forall i :: 0 <= i < |xs| ==> Coercible(xs[i])
    ensures r.Converted? ==>
              (r.value.OneOf? || r.value.Sequence?) && |r.value.parsers| == |xs| &&
              forall i :: 0 <= i < |xs| ==> Coerce(xs[i]) == Converted(r.value.parsers[i])
  {
    match CoerceAll(xs)
    case TypeError => TypeError
    case Converted(ps) => Converted(if k == OneOfKind then OneOf(ps) else Sequence(ps))
  }

  /** `self.separated_by(sep)`: `sep_by(self, sep)`. */
  function SeparatedBy(self: Parser, sep: HostValue): (r: Converted<Parser>)
    ensures r.Converted? <==> Coercible(sep)
    ensures r.Converted? ==>
              r.value.SepBy? && r.value.parser == self && Coerce(sep) == Converted(r.value.separator)
  {
    Binary(ParserObj(self), sep)
  }

  /** The children a sequence contributes when flattened into another one;
      any other parser contributes itself. */
  function Operands(p: Parser): (ps: seq<Parser>)
    ensures p.Sequence? ==> Sequence(ps) == p
    ensures !p.Sequence? ==> ps == [p]
  {
    if p.Sequence? then p.parsers else [p]
  }

  /** `self + other`: a sequence operand absorbs the other operand (the
      right one first), otherwise a new two-element sequence. Only the
      non-sequence right operand is coerced, so it raises TypeError exactly
      when that operand is not coercible. */
  function Add(self: Parser, other: HostValue): (r: Converted<Parser>)
    ensures r.Converted? <==> Coercible(other)
    ensures r.Converted? ==> r.value.Sequence?
    ensures r.Converted? && other.ParserObj? ==>
              r.value.parsers == (if other.p.Sequence? then [self] + other.p.parsers
                                  else Operands(self) + [other.p])
    ensures r.Converted? && !other.ParserObj? ==>
              r.value.parsers == Operands(self) + [Coerce(other).value]
  {
    if other.ParserObj? && other.p.Sequence? then
      Converted(Sequence([self] + other.p.parsers))
    else
      match Coerce(other)
      case TypeError => TypeError
      case Converted(q) =>
        if self.Sequence? then Converted(Sequence(self.parsers + [q]))
        else Converted(Sequence([self, q]))
  }

  /** `other + self` with `other` not a parser: the coerced left operand is
      put in front. */
  function RAdd(self: Parser, other: HostValue): (r: Converted<Parser>)
    ensures r.Converted? <==> Coercible(other)
    ensures r.Converted? ==> r.value.Sequence?
    ensures r.Converted? && !(other.ParserObj? && other.p.Sequence?) ==>
              r.value.parsers == [Coerce(other).value] + Operands(self)
  {
    if other.ParserObj? && other.p.Sequence? then
      Converted(Sequence(other.p.parsers + [self]))
    else
      match Coerce(other)
      case TypeError => TypeError
      case Converted(q) =>
        if self.Sequence? then Converted(Sequence([q] + self.parsers))
        else Converted(Sequence([q, self]))
  }

  /** `self * n` and `n * self`: a sequence of `n` copies (none when `n` is
      not positive). */
  function Mul(self: Parser, n: int): (r: Parser)
    ensures r.Sequence? && |r.parsers| == (if n < 0 then 0 else n)
    ensures forall i :: 0 <= i < |r.parsers| ==> r.parsers[i] == self
  {
    Sequence(Copies(self, n))
  }

  /** `self | other`: `one_of([self, other])`, whose constructor coerces
      `other`. */
  function Or(self: Parser, other: HostValue): (r: Converted<Parser>)
    ensures r.Converted? <==> Coercible(other)
    ensures r.Converted? ==>
              r.value.OneOf? && |r.value.parsers| == 2 && r.value.parsers[0] == self &&
              Coerce(other) == Converted(r.value.parsers[1])
  {
    var xs := [ParserObj(self), other];
    assert (forall i :: 0 <= i < |xs| ==> Coercible(xs[i])) <==> Coercible(other) by {
      assert xs[1] == other && Coercible(ParserObj(self));
      assert forall i :: 0 <= i < |xs| ==> Coercible(xs[i]) == (i == 0 || Coercible(other));
    }
    Multary(OneOfKind, xs)
  }

  /** `other | self`: `one_of([other, self])`. */
  function ROr(self: Parser, other: HostValue): (r: Converted<Parser>)
    ensures r.Converted? <==> Coercible(other)
    ensures r.Converted? ==>
              r.value.OneOf? && |r.value.parsers| == 2 && r.value.parsers[1] == self &&
              Coerce(other) == Converted(r.value.parsers[0])
  {
    var xs := [other, ParserObj(self)];
    assert (forall i :: 0 <= i < |xs| ==> Coercible(xs[i])) <==> Coercible(other) by {
      assert xs[0] == other && Coercible(ParserObj(self));
      assert forall i :: 0 <= i < |xs| ==> Coercible(xs[i]) == (i == 1 || Coercible(other));
    }
    Multary(OneOfKind, xs)
  }
}
