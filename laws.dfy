/** Independent readings of `sequence` and `one_of` as recursive compositions,
    proved equal to the loops of parsing.py, and the algebra they give the
    operators `+`, `|` and `*` of class Parser. */
module Laws {
  import opened Values
  import opened Parsers
  import opened Semantics
  import opened Coercion
  import Properties

  /** Parsers whose results can be joined as text by a sequence. */
  predicate Textual(p: Parser) {
    StringValued(p) && WellTyped(p)
  }

  // ---------------------------------------------------------------------
  // sequence as a composition

  /** The text `t` of one child joined in front of the outcome `next` of the
      children after it, inside a sequence that started at `s`: a failure of
      a later child rolls back to `s`. */
  function Join(t: string, next: Outcome, s: string): (o: Outcome)
    requires next.Success? ==> next.result.value.Text?
    ensures o.Success? ==> o.result.value.Text? && o.result == Shape(o.result.value, o.result.Rest())
  {
    match next
    case Success(r) => Success(Shape(Text(t + r.value.s), r.Rest()))
    case Failure(e, _) => Failure(e, s)
    case Diverges => Diverges
  }

  /** The children `ps` run one after the other on `s`: every result returned
      is shaped by what remains, and every failure leaves `s` in place. */
  function Chain(ps: seq<Parser>, s: string): (o: Outcome)
    requires WellTyped(Sequence(ps))
    ensures o.Success? ==> o.result.value.Text? && o.result == Shape(o.result.value, o.result.Rest())
    ensures o.Failure? ==> o.rest == s
    decreases |ps|, 0
  {
    if ps == [] then Success(Shape(Text(""), s))
    else
      assert forall i :: 0 <= i < |ps[1..]| ==> ps[1..][i] == ps[i + 1];
      Then(Run(ps[0], s), ps[1..], s)
  }

  /** The outcome `first` of one child followed by the children `zs`. */
  function Then(first: Outcome, zs: seq<Parser>, s: string): (o: Outcome)
    requires WellTyped(Sequence(zs))
    requires first.Success? ==> first.result.value.Text?
    ensures o.Success? ==> o.result.value.Text? && o.result == Shape(o.result.value, o.result.Rest())
    ensures o.Failure? ==> o.rest == s
    decreases |zs|, 1
  {
    match first
    case Success(r) => Join(r.value.s, Chain(zs, r.Rest()), s)
    case Failure(e, _) => Failure(e, s)
    case Diverges => Diverges
  }

  lemma JoinJoin(a: string, b: string, next: Outcome, m: string, s: string)
    requires next.Success? ==> next.result.value.Text?
    ensures Join(a, Join(b, next, m), s) == Join(a + b, next, s)
  {
    if next.Success? {
      assert a + (b + next.result.value.s) == a + b + next.result.value.s;
    }
  }

  lemma {:induction false} SequenceLoopIsChain(ps: seq<Parser>, i: nat, s0: string, s: string, acc: string)
    requires i <= |ps| && Suffix(s, s0) && WellTyped(Sequence(ps))
    ensures WellTyped(Sequence(ps[i..]))
    ensures SequenceLoop(ps, i, s0, s, acc) == Join(acc, Chain(ps[i..], s), s0)
    decreases |ps| - i
  {
    assert forall j :: 0 <= j < |ps[i..]| ==> ps[i..][j] == ps[i + j];
    if i == |ps| {
      assert ps[i..] == [];
      assert acc + "" == acc;
    } else {
      assert ps[i..][0] == ps[i] && ps[i..][1..] == ps[i + 1..];
      SequenceLoopIsChain(ps, i + 1, s0, s, acc);
      match Run(ps[i], s)
      case Success(r) =>
        SuffixTransitive(r.Rest(), s, s0);
        SequenceLoopIsChain(ps, i + 1, s0, r.Rest(), acc + r.value.s);
        JoinJoin(acc, r.value.s, Chain(ps[i + 1..], r.Rest()), s, s0);
      case _ =>
    }
  }

  /** sequence's loop with its single checkpoint computes the composition
      Chain: the children in order, each on what the previous one left. */
  lemma SequenceIsChain(ps: seq<Parser>, s: string)
    requires WellTyped(Sequence(ps))
    ensures Run(Sequence(ps), s) == Chain(ps, s)
  {
    SequenceLoopIsChain(ps, 0, s, s, "");
    assert ps[0..] == ps;
    var o := Chain(ps, s);
    if o.Success? {
      assert "" + o.result.value.s == o.result.value.s;
    }
  }

  lemma ThenJoin(t: string, c: Outcome, zs: seq<Parser>, m: string, s: string)
    requires WellTyped(Sequence(zs)) && (c.Success? ==> c.result.value.Text?)
    ensures Join(t, Then(c, zs, m), s) == Then(Join(t, c, s), zs, s)
  {
    if c.Success? {
      JoinJoin(t, c.result.value.s, Chain(zs, c.result.Rest()), m, s);
    }
  }

  lemma TypedSplit(ys: seq<Parser>, zs: seq<Parser>)
    requires WellTyped(Sequence(ys + zs))
    ensures WellTyped(Sequence(ys)) && WellTyped(Sequence(zs))
    ensures ys != [] ==> Textual(ys[0]) && WellTyped(Sequence(ys[1..] + zs))
  {
    assert forall i :: 0 <= i < |ys| ==> ys[i] == (ys + zs)[i];
    assert forall i :: 0 <= i < |zs| ==> zs[i] == (ys + zs)[|ys| + i];
    if ys != [] {
      assert forall i :: 0 <= i < |ys[1..] + zs| ==> (ys[1..] + zs)[i] == (ys + zs)[i + 1];
    }
  }

  lemma ChainCons(ps: seq<Parser>, s: string)
    requires ps != [] && WellTyped(Sequence(ps))
    ensures Textual(ps[0]) && WellTyped(Sequence(ps[1..]))
    ensures Chain(ps, s) == Then(Run(ps[0], s), ps[1..], s)
  {
    assert forall i :: 0 <= i < |ps[1..]| ==> ps[1..][i] == ps[i + 1];
  }

  lemma {:induction false} ChainAppend(ys: seq<Parser>, zs: seq<Parser>, s: string)
    requires WellTyped(Sequence(ys + zs))
    ensures WellTyped(Sequence(ys)) && WellTyped(Sequence(zs))
    ensures Chain(ys + zs, s) == Then(Chain(ys, s), zs, s)
    decreases |ys|
  {
    TypedSplit(ys, zs);
    if ys == [] {
      assert ys + zs == zs;
      var o := Chain(zs, s);
      if o.Success? {
        assert "" + o.result.value.s == o.result.value.s;
      }
    } else {
      var y, rest := ys[0], ys[1..];
      assert (ys + zs)[0] == y && (ys + zs)[1..] == rest + zs;
      ChainCons(ys + zs, s);
      ChainCons(ys, s);
      var o := Run(y, s);
      if o.Success? {
        ChainAppend(rest, zs, o.result.Rest());
        ThenJoin(o.result.value.s, Chain(rest, o.result.Rest()), zs, o.result.Rest(), s);
      }
    }
  }

  /** `sequence(ys + zs)` is `sequence(ys)` followed by the children `zs`. */
  lemma SequenceAppend(ys: seq<Parser>, zs: seq<Parser>, s: string)
    requires WellTyped(Sequence(ys + zs))
    ensures WellTyped(Sequence(ys)) && WellTyped(Sequence(zs))
    ensures Run(Sequence(ys + zs), s) == Then(Run(Sequence(ys), s), zs, s)
  {
    ChainAppend(ys, zs, s);
    SequenceIsChain(ys + zs, s);
    SequenceIsChain(ys, s);
  }

  lemma FlattenTyped(xs: seq<Parser>, ys: seq<Parser>, zs: seq<Parser>)
    requires WellTyped(Sequence(xs + ys + zs))
    ensures WellTyped(Sequence(ys)) && WellTyped(Sequence(xs + [Sequence(ys)] + zs))
    ensures xs != [] ==> WellTyped(Sequence(xs[1..] + ys + zs))
  {
    TypedSplit(xs + ys, zs);
    TypedSplit(xs, ys);
    AppendTyped(xs, [Sequence(ys)]);
    AppendTyped(xs + [Sequence(ys)], zs);
    if xs != [] {
      TypedSplit(xs, ys + zs);
      assert xs + ys + zs == xs + (ys + zs);
      assert xs[1..] + (ys + zs) == xs[1..] + ys + zs;
    }
  }

  lemma {:induction false} ChainFlatten(xs: seq<Parser>, ys: seq<Parser>, zs: seq<Parser>, s: string)
    requires WellTyped(Sequence(xs + ys + zs))
    ensures WellTyped(Sequence(xs + [Sequence(ys)] + zs))
    ensures Chain(xs + [Sequence(ys)] + zs, s) == Chain(xs + ys + zs, s)
    decreases |xs|
  {
    FlattenTyped(xs, ys, zs);
    var l, r := xs + [Sequence(ys)] + zs, xs + ys + zs;
    if xs == [] {
      assert l == [Sequence(ys)] + zs && l[0] == Sequence(ys) && l[1..] == zs;
      assert r == ys + zs;
      ChainCons(l, s);
      SequenceIsChain(ys, s);
      ChainAppend(ys, zs, s);
    } else {
      assert l[0] == xs[0] && l[1..] == xs[1..] + [Sequence(ys)] + zs;
      assert r[0] == xs[0] && r[1..] == xs[1..] + ys + zs;
      ChainCons(l, s);
      ChainCons(r, s);
      var o := Run(xs[0], s);
      if o.Success? {
        ChainFlatten(xs[1..], ys, zs, o.result.Rest());
      }
    }
  }

  /** A sequence nested in a sequence parses like its children spliced in its
      place. */
  lemma SequenceFlatten(xs: seq<Parser>, ys: seq<Parser>, zs: seq<Parser>, s: string)
    requires WellTyped(Sequence(xs + ys + zs))
    ensures WellTyped(Sequence(xs + [Sequence(ys)] + zs))
    ensures Run(Sequence(xs + [Sequence(ys)] + zs), s) == Run(Sequence(xs + ys + zs), s)
  {
    ChainFlatten(xs, ys, zs, s);
    SequenceIsChain(xs + [Sequence(ys)] + zs, s);
    SequenceIsChain(xs + ys + zs, s);
  }

  /** The literals `ts` as constant parsers. */
  function Literals(ts: seq<string>): (ps: seq<Parser>)
    ensures |ps| == |ts| && forall i :: 0 <= i < |ts| ==> ps[i] == Constant(ts[i])
  {
    if ts == [] then [] else [Constant(ts[0])] + Literals(ts[1..])
  }

  /** The literals `ts` written one after the other. */
  function Concat(ts: seq<string>): (c: string) {
    if ts == [] then "" else ts[0] + Concat(ts[1..])
  }

  lemma {:induction false} ChainOfLiterals(ts: seq<string>, s: string)
    ensures WellTyped(Sequence(Literals(ts)))
    ensures Chain(Literals(ts), Concat(ts) + s) == Success(Shape(Text(Concat(ts)), s))
    decreases |ts|
  {
    if ts != [] {
      var t, more := ts[0], ts[1..];
      var ps := Literals(ts);
      assert ps[0] == Constant(t) && ps[1..] == Literals(more);
      var input := Concat(ts) + s;
      assert input == t + (Concat(more) + s);
      assert t <= input && input[|t|..] == Concat(more) + s;
      ChainOfLiterals(more, s);
      assert Run(Constant(t), input) == Success(Shape(Text(t), Concat(more) + s));
    }
  }

  /** A sequence of literals takes exactly their concatenation off the front
      of the input and returns it. */
  lemma SequenceOfLiterals(ts: seq<string>, s: string)
    ensures WellTyped(Sequence(Literals(ts)))
    ensures Run(Sequence(Literals(ts)), Concat(ts) + s) == Success(Shape(Text(Concat(ts)), s))
  {
    ChainOfLiterals(ts, s);
    SequenceIsChain(Literals(ts), Concat(ts) + s);
  }

  /** The strings `ts` as host objects, the list `sequence(tokens)` is
      given. */
  function Strings(ts: seq<string>): (xs: seq<HostValue>)
    ensures |xs| == |ts| && forall i :: 0 <= i < |ts| ==> xs[i] == StrObj(ts[i])
  {
    if ts == [] then [] else [StrObj(ts[0])] + Strings(ts[1..])
  }

  /** `sequence(tokens)` over a list of strings coerces each one to a
      constant, in order: it builds the sequence of the literals. */
  lemma SequenceOfStrings(ts: seq<string>)
    ensures Multary(SequenceKind, Strings(ts)) == Converted(Sequence(Literals(ts)))
  {
    var xs := Strings(ts);
    assert forall i :: 0 <= i < |xs| ==> Coercible(xs[i]);
    var r := Multary(SequenceKind, xs);
    assert r.Converted?;
    assert forall i :: 0 <= i < |ts| ==> Coerce(xs[i]) == Converted(Constant(ts[i]));
    assert r.value.parsers == Literals(ts);
  }

  /** `sequence(tokens)` on `''.join(tokens)`, followed by any text `s`,
      returns the joined tokens and leaves `s`. */
  lemma SequenceOfTokens(ts: seq<string>, s: string)
    ensures Multary(SequenceKind, Strings(ts)).Converted?
    ensures WellTyped(Multary(SequenceKind, Strings(ts)).value)
    ensures Run(Multary(SequenceKind, Strings(ts)).value, Concat(ts) + s) == Success(Shape(Text(Concat(ts)), s))
  {
    SequenceOfStrings(ts);
    SequenceOfLiterals(ts, s);
  }

  // ---------------------------------------------------------------------
  // one_of as a composition

  /** The first of `ps` that does not raise, each later one tried where the
      previous one's failure left the cursor. */
  function FirstOf(ps: seq<Parser>, s: string): (o: Outcome)
    requires WellTyped(OneOf(ps))
    ensures o.Failure? ==> o.error == ParserError
    decreases |ps|, 0
  {
    if ps == [] then Failure(ParserError, s)
    else
      assert forall i :: 0 <= i < |ps[1..]| ==> ps[1..][i] == ps[i + 1];
      Else(Run(ps[0], s), ps[1..])
  }

  /** The outcome `first` of one alternative, or else the alternatives `zs`. */
  function Else(first: Outcome, zs: seq<Parser>): (o: Outcome)
    requires WellTyped(OneOf(zs))
    ensures !first.Failure? ==> o == first
    ensures o.Failure? ==> o.error == ParserError
    decreases |zs|, 1
  {
    match first
    case Failure(_, rest) => FirstOf(zs, rest)
    case _ => first
  }

  lemma {:induction false} OneOfLoopIsFirstOf(ps: seq<Parser>, i: nat, s: string)
    requires i <= |ps| && WellTyped(OneOf(ps))
    ensures WellTyped(OneOf(ps[i..]))
    ensures OneOfLoop(ps, i, s) == FirstOf(ps[i..], s)
    decreases |ps| - i
  {
    assert forall j :: 0 <= j < |ps[i..]| ==> ps[i..][j] == ps[i + j];
    if i < |ps| {
      assert ps[i..][0] == ps[i] && ps[i..][1..] == ps[i + 1..];
      OneOfLoopIsFirstOf(ps, i + 1, s);
      if Run(ps[i], s).Failure? {
        OneOfLoopIsFirstOf(ps, i + 1, Run(ps[i], s).rest);
      }
    }
  }

  /** one_of's loop computes FirstOf. */
  lemma OneOfIsFirstOf(ps: seq<Parser>, s: string)
    requires WellTyped(OneOf(ps))
    ensures Run(OneOf(ps), s) == FirstOf(ps, s)
  {
    OneOfLoopIsFirstOf(ps, 0, s);
    assert ps[0..] == ps;
  }

  lemma {:induction false} FirstOfAppend(ys: seq<Parser>, zs: seq<Parser>, s: string)
    requires WellTyped(OneOf(ys + zs))
    ensures WellTyped(OneOf(ys)) && WellTyped(OneOf(zs))
    ensures FirstOf(ys + zs, s) == Else(FirstOf(ys, s), zs)
    decreases |ys|
  {
    assert forall i :: 0 <= i < |ys| ==> ys[i] == (ys + zs)[i];
    assert forall i :: 0 <= i < |zs| ==> zs[i] == (ys + zs)[|ys| + i];
    if ys == [] {
      assert ys + zs == zs;
    } else {
      var y, rest := ys[0], ys[1..];
      assert (ys + zs)[0] == y && (ys + zs)[1..] == rest + zs;
      assert forall i :: 0 <= i < |rest + zs| ==> (rest + zs)[i] == (ys + zs)[i + 1];
      if Run(y, s).Failure? {
        FirstOfAppend(rest, zs, Run(y, s).rest);
      }
    }
  }

  lemma FirstOfCons(ps: seq<Parser>, s: string)
    requires ps != [] && WellTyped(OneOf(ps))
    ensures WellTyped(ps[0]) && WellTyped(OneOf(ps[1..]))
    ensures FirstOf(ps, s) == Else(Run(ps[0], s), ps[1..])
  {
    assert forall i :: 0 <= i < |ps[1..]| ==> ps[1..][i] == ps[i + 1];
  }

  lemma AlternativesTyped(xs: seq<Parser>, ys: seq<Parser>, zs: seq<Parser>)
    requires WellTyped(OneOf(xs + ys + zs))
    ensures WellTyped(OneOf(ys)) && WellTyped(OneOf(ys + zs)) && WellTyped(OneOf(xs + [OneOf(ys)] + zs))
  {
    var l, r := xs + [OneOf(ys)] + zs, xs + ys + zs;
    assert forall i :: 0 <= i < |ys| ==> ys[i] == r[|xs| + i];
    assert forall i :: 0 <= i < |ys + zs| ==> (ys + zs)[i] == r[|xs| + i];
    assert forall i :: 0 <= i < |xs| ==> l[i] == r[i];
    assert forall i :: |xs| < i < |l| ==> l[i] == r[i + |ys| - 1];
    assert l[|xs|] == OneOf(ys);
  }

  lemma {:induction false} FirstOfFlatten(xs: seq<Parser>, ys: seq<Parser>, zs: seq<Parser>, s: string)
    requires WellTyped(OneOf(xs + ys + zs))
    ensures WellTyped(OneOf(xs + [OneOf(ys)] + zs))
    ensures FirstOf(xs + [OneOf(ys)] + zs, s) == FirstOf(xs + ys + zs, s)
    decreases |xs|
  {
    AlternativesTyped(xs, ys, zs);
    var l, r := xs + [OneOf(ys)] + zs, xs + ys + zs;
    if xs == [] {
      assert l == [OneOf(ys)] + zs && l[0] == OneOf(ys) && l[1..] == zs;
      assert r == ys + zs;
      FirstOfCons(l, s);
      OneOfIsFirstOf(ys, s);
      FirstOfAppend(ys, zs, s);
    } else {
      var x, xs' := xs[0], xs[1..];
      assert l[0] == x && l[1..] == xs' + [OneOf(ys)] + zs;
      assert r[0] == x && r[1..] == xs' + ys + zs;
      FirstOfCons(l, s);
      FirstOfCons(r, s);
      if Run(x, s).Failure? {
        FirstOfFlatten(xs', ys, zs, Run(x, s).rest);
      }
    }
  }

  /** A one_of nested in a one_of parses like its alternatives spliced in its
      place. */
  lemma OneOfFlatten(xs: seq<Parser>, ys: seq<Parser>, zs: seq<Parser>, s: string)
    requires WellTyped(OneOf(xs + ys + zs))
    ensures WellTyped(OneOf(xs + [OneOf(ys)] + zs))
    ensures Run(OneOf(xs + [OneOf(ys)] + zs), s) == Run(OneOf(xs + ys + zs), s)
  {
    FirstOfFlatten(xs, ys, zs, s);
    OneOfIsFirstOf(xs + [OneOf(ys)] + zs, s);
    OneOfIsFirstOf(xs + ys + zs, s);
  }

  // ---------------------------------------------------------------------
  // The operators

  /** `p.separated_by(sep)` parses as sep_by with `p` as the element parser
      and the coerced `sep` as the separator, and so never raises. */
  lemma SeparatedByIsSepBy(p: Parser, sep: HostValue, s: string)
    requires WellTyped(p) && Coercible(sep) && WellTyped(Coerce(sep).value)
    ensures SeparatedBy(p, sep).Converted? && WellTyped(SeparatedBy(p, sep).value)
    ensures Run(SeparatedBy(p, sep).value, s) == Run(SepBy(p, Coerce(sep).value), s)
    ensures !Run(SeparatedBy(p, sep).value, s).Failure?
  {
    Properties.NeverFails(SepBy(p, Coerce(sep).value), s);
  }

  /** `a | b | c` parses the same however it is grouped, although `|` does
      not flatten the nested one_of it builds. */
  lemma OrAssociative(a: Parser, b: Parser, c: Parser, s: string)
    requires WellTyped(a) && WellTyped(b) && WellTyped(c)
    ensures var ab, bc := Or(a, ParserObj(b)).value, Or(b, ParserObj(c)).value;
            && WellTyped(Or(ab, ParserObj(c)).value) && WellTyped(Or(a, ParserObj(bc)).value)
            && Run(Or(ab, ParserObj(c)).value, s) == Run(Or(a, ParserObj(bc)).value, s)
  {
    var ab, bc := Or(a, ParserObj(b)).value, Or(b, ParserObj(c)).value;
    assert ab == OneOf([a, b]) && bc == OneOf([b, c]);
    assert Or(ab, ParserObj(c)).value == OneOf([] + [OneOf([a, b])] + [c]);
    assert Or(a, ParserObj(bc)).value == OneOf([a] + [OneOf([b, c])] + []);
    assert [] + [a, b] + [c] == [a] + [b, c] + [] == [a, b, c];
    OneOfFlatten([], [a, b], [c], s);
    OneOfFlatten([a], [b, c], [], s);
  }

  lemma OperandsTextual(p: Parser)
    requires Textual(p)
    ensures forall i :: 0 <= i < |Operands(p)| ==> Textual(Operands(p)[i])
  {
  }

  /** Splicing the operands of `p` in its place. */
  lemma SpliceOperands(xs: seq<Parser>, p: Parser, zs: seq<Parser>, s: string)
    requires WellTyped(Sequence(xs + Operands(p) + zs)) && Textual(p)
    ensures WellTyped(Sequence(xs + [p] + zs))
    ensures Run(Sequence(xs + [p] + zs), s) == Run(Sequence(xs + Operands(p) + zs), s)
  {
    if p.Sequence? {
      SequenceFlatten(xs, p.parsers, zs, s);
    }
  }

  /** The operands `a + b` collects, for two parsers. */
  lemma AddOperands(a: Parser, b: Parser)
    ensures Add(a, ParserObj(b)).Converted?
    ensures Add(a, ParserObj(b)).value.parsers ==
              (if b.Sequence? then [a] + b.parsers else Operands(a) + Operands(b))
  {
  }

  /** Splicing `[a] + bs` where the operands of `a` followed by `bs` stood. */
  lemma SpliceFront(xs: seq<Parser>, a: Parser, bs: seq<Parser>, zs: seq<Parser>, s: string)
    requires Textual(a)
    requires WellTyped(Sequence(xs + Operands(a) + bs + zs))
    ensures WellTyped(Sequence(xs + ([a] + bs) + zs))
    ensures Run(Sequence(xs + ([a] + bs) + zs), s) == Run(Sequence(xs + Operands(a) + bs + zs), s)
  {
    assert xs + ([a] + bs) + zs == xs + [a] + (bs + zs);
    assert xs + Operands(a) + bs + zs == xs + Operands(a) + (bs + zs);
    SpliceOperands(xs, a, bs + zs, s);
  }

  /** Everything `a + b` builds, spliced between `xs` and `zs`, parses like
      the operands of `a` followed by those of `b`. */
  lemma AddSpliced(xs: seq<Parser>, a: Parser, b: Parser, zs: seq<Parser>, s: string)
    requires Textual(a) && Textual(b)
    requires WellTyped(Sequence(xs + Operands(a) + Operands(b) + zs))
    ensures Add(a, ParserObj(b)).Converted?
    ensures var ab := Add(a, ParserObj(b)).value.parsers;
            WellTyped(Sequence(xs + ab + zs)) &&
            Run(Sequence(xs + ab + zs), s) == Run(Sequence(xs + Operands(a) + Operands(b) + zs), s)
  {
    AddOperands(a, b);
    if b.Sequence? {
      SpliceFront(xs, a, b.parsers, zs, s);
    } else {
      Regroup(xs, Operands(a), Operands(b));
    }
  }

  /** `a + b` parses like the operands of `a` followed by those of `b`, in
      one sequence. */
  lemma AddIsSequence(a: Parser, b: Parser, s: string)
    requires Textual(a) && Textual(b)
    requires WellTyped(Sequence(Operands(a) + Operands(b)))
    ensures Add(a, ParserObj(b)).Converted? && WellTyped(Add(a, ParserObj(b)).value)
    ensures Run(Add(a, ParserObj(b)).value, s) == Run(Sequence(Operands(a) + Operands(b)), s)
  {
    var ab := Add(a, ParserObj(b)).value.parsers;
    assert [] + ab + [] == ab;
    assert [] + Operands(a) + Operands(b) + [] == Operands(a) + Operands(b);
    AddSpliced([], a, b, [], s);
  }

  lemma AppendTyped(xs: seq<Parser>, ys: seq<Parser>)
    requires WellTyped(Sequence(xs)) && WellTyped(Sequence(ys))
    ensures WellTyped(Sequence(xs + ys))
  {
    assert forall i :: 0 <= i < |xs + ys| ==> (xs + ys)[i] == if i < |xs| then xs[i] else ys[i - |xs|];
  }

  lemma AddTextual(a: Parser, b: Parser)
    requires Textual(a) && Textual(b)
    ensures Add(a, ParserObj(b)).Converted? && Textual(Add(a, ParserObj(b)).value)
    ensures WellTyped(Sequence(Operands(a) + Operands(b)))
  {
    OperandsTextual(a);
    OperandsTextual(b);
    AppendTyped(Operands(a), Operands(b));
    var ab := Add(a, ParserObj(b)).value.parsers;
    if b.Sequence? {
      AppendTyped([a], b.parsers);
    } else {
      assert ab == Operands(a) + Operands(b);
    }
  }

  lemma OperandsTyped(p: Parser)
    requires Textual(p)
    ensures WellTyped(Sequence(Operands(p)))
  {
  }

  lemma TripleTyped(a: Parser, b: Parser, c: Parser)
    requires Textual(a) && Textual(b) && Textual(c)
    ensures WellTyped(Sequence(Operands(a) + Operands(b) + Operands(c)))
  {
    var oa, ob, oc := Operands(a), Operands(b), Operands(c);
    OperandsTyped(a);
    OperandsTyped(b);
    OperandsTyped(c);
    AppendTyped(oa, ob);
    AppendTyped(oa + ob, oc);
  }

  /** A sequence `x` on the left of `+` parses like its own children
      followed by the operands of `c`. */
  lemma AddSequenceLeft(x: Parser, c: Parser, s: string)
    requires Textual(x) && Textual(c) && x.Sequence?
    ensures Add(x, ParserObj(c)).Converted? && WellTyped(Add(x, ParserObj(c)).value)
    ensures WellTyped(Sequence(x.parsers + Operands(c)))
    ensures Run(Add(x, ParserObj(c)).value, s) == Run(Sequence(x.parsers + Operands(c)), s)
  {
    AddTextual(x, c);
    AddIsSequence(x, c, s);
  }

  /** The children of `a + b` followed by the operands of `c` parse like
      the operands of all three. */
  lemma AddThenOperands(a: Parser, b: Parser, c: Parser, s: string)
    requires Textual(a) && Textual(b) && Textual(c)
    requires WellTyped(Sequence(Operands(a) + Operands(b) + Operands(c)))
    ensures Add(a, ParserObj(b)).Converted?
    ensures Run(Sequence(Add(a, ParserObj(b)).value.parsers + Operands(c)), s)
            == Run(Sequence(Operands(a) + Operands(b) + Operands(c)), s)
  {
    var ps, oc := Add(a, ParserObj(b)).value.parsers, Operands(c);
    EmptyFront(ps, Operands(a), Operands(b), oc);
    AddSpliced([], a, b, oc, s);
  }

  lemma AddLeftGrouped(a: Parser, b: Parser, c: Parser, s: string)
    requires Textual(a) && Textual(b) && Textual(c)
    requires Add(a, ParserObj(b)).Converted? && Textual(Add(a, ParserObj(b)).value)
    ensures var ab := Add(a, ParserObj(b)).value;
            Add(ab, ParserObj(c)).Converted? && WellTyped(Add(ab, ParserObj(c)).value) &&
            Run(Add(ab, ParserObj(c)).value, s) == Run(Sequence(Operands(a) + Operands(b) + Operands(c)), s)
  {
    TripleTyped(a, b, c);
    AddSequenceLeft(Add(a, ParserObj(b)).value, c, s);
    AddThenOperands(a, b, c, s);
  }

  lemma AddRightGrouped(a: Parser, b: Parser, c: Parser, s: string)
    requires Textual(a) && Textual(b) && Textual(c)
    ensures Add(b, ParserObj(c)).Converted? && Textual(Add(b, ParserObj(c)).value)
    ensures WellTyped(Sequence(Operands(a) + Operands(b) + Operands(c)))
    ensures var bc := Add(b, ParserObj(c)).value;
            Add(a, ParserObj(bc)).Converted? && WellTyped(Add(a, ParserObj(bc)).value) &&
            Run(Add(a, ParserObj(bc)).value, s) == Run(Sequence(Operands(a) + Operands(b) + Operands(c)), s)
  {
    AddTextual(b, c);
    TripleTyped(a, b, c);
    var bc := Add(b, ParserObj(c)).value;
    var all := Operands(a) + Operands(b) + Operands(c);
    var right := Operands(a) + Operands(bc);
    assert Operands(a) + bc.parsers + [] == right;
    assert Operands(a) + Operands(b) + Operands(c) + [] == all;
    AddSpliced(Operands(a), b, c, [], s);
    AddIsSequence(a, bc, s);
  }

  /** `(a + b) + c` and `a + (b + c)` parse the same: like the operands of
      `a`, `b` and `c` in one sequence. */
  lemma AddAssociative(a: Parser, b: Parser, c: Parser, s: string)
    requires Textual(a) && Textual(b) && Textual(c)
    ensures var ab, bc := Add(a, ParserObj(b)).value, Add(b, ParserObj(c)).value;
            && WellTyped(Add(ab, ParserObj(c)).value) && WellTyped(Add(a, ParserObj(bc)).value)
            && Run(Add(ab, ParserObj(c)).value, s) == Run(Add(a, ParserObj(bc)).value, s)
  {
    AddTextual(a, b);
    AddLeftGrouped(a, b, c, s);
    AddRightGrouped(a, b, c, s);
  }

  lemma CopiesAdd(p: Parser, m: nat, n: nat)
    ensures Copies(p, m) + Copies(p, n) == Copies(p, m + n)
  {
  }

  lemma CopiesTyped(p: Parser, k: nat, zs: seq<Parser>)
    requires Textual(p) && WellTyped(Sequence(zs))
    ensures WellTyped(Sequence(Copies(p, k) + zs))
  {
    assert forall i :: 0 <= i < |Copies(p, k) + zs| ==>
             (Copies(p, k) + zs)[i] == if i < k then p else zs[i - k];
  }

  /** The lists `cs` written `m` times one after the other. */
  function Repeated(cs: seq<Parser>, m: nat): (rs: seq<Parser>) {
    if m == 0 then [] else Repeated(cs, m - 1) + cs
  }

  lemma {:induction false} RepeatedTyped(cs: seq<Parser>, m: nat)
    requires WellTyped(Sequence(cs))
    ensures WellTyped(Sequence(Repeated(cs, m)))
    decreases m
  {
    if m > 0 {
      RepeatedTyped(cs, m - 1);
      AppendTyped(Repeated(cs, m - 1), cs);
    }
  }

  /** `m` times the `n` copies of `p` are `n * m` copies of `p`. */
  lemma {:induction false} RepeatedCopies(p: Parser, n: nat, m: nat)
    ensures Repeated(Copies(p, n), m) == Copies(p, n * m)
    decreases m
  {
    if m > 0 {
      RepeatedCopies(p, n, m - 1);
      CopiesAdd(p, n * (m - 1), n);
      assert n * (m - 1) + n == n * m;
    }
  }

  /** `m` copies of the sequence of `cs`, followed by any textual tail, fold
      like `cs` written out `m` times followed by it. */
  lemma {:induction false} ChainOfNested(cs: seq<Parser>, m: nat, zs: seq<Parser>, s: string)
    requires WellTyped(Sequence(cs)) && WellTyped(Sequence(zs))
    ensures WellTyped(Sequence(Copies(Sequence(cs), m) + zs)) && WellTyped(Sequence(Repeated(cs, m) + zs))
    ensures Chain(Copies(Sequence(cs), m) + zs, s) == Chain(Repeated(cs, m) + zs, s)
    decreases m
  {
    NestedTyped(cs, m, zs);
    if m == 0 {
      assert Copies(Sequence(cs), 0) == [] == Repeated(cs, 0);
    } else {
      AppendTyped(cs, zs);
      ChainOfNested(cs, m - 1, cs + zs, s);
      NestedStep(cs, m, zs, s);
    }
  }

  /** Both lists ChainOfNested compares are well-typed. */
  lemma NestedTyped(cs: seq<Parser>, m: nat, zs: seq<Parser>)
    requires WellTyped(Sequence(cs)) && WellTyped(Sequence(zs))
    ensures WellTyped(Sequence(Copies(Sequence(cs), m) + zs)) && WellTyped(Sequence(Repeated(cs, m) + zs))
  {
    CopiesTyped(Sequence(cs), m, zs);
    RepeatedTyped(cs, m);
    AppendTyped(Repeated(cs, m), zs);
  }

  /** The inductive step of ChainOfNested: from `m - 1` copies in front of
      the tail `cs + zs` to `m` copies in front of `zs`. */
  lemma NestedStep(cs: seq<Parser>, m: nat, zs: seq<Parser>, s: string)
    requires m > 0 && WellTyped(Sequence(cs)) && WellTyped(Sequence(zs))
    requires WellTyped(Sequence(Copies(Sequence(cs), m - 1) + (cs + zs)))
    requires WellTyped(Sequence(Repeated(cs, m - 1) + (cs + zs))) && WellTyped(Sequence(Repeated(cs, m) + zs))
    requires Chain(Copies(Sequence(cs), m - 1) + (cs + zs), s) == Chain(Repeated(cs, m - 1) + (cs + zs), s)
    ensures WellTyped(Sequence(Copies(Sequence(cs), m) + zs))
    ensures Chain(Copies(Sequence(cs), m) + zs, s) == Chain(Repeated(cs, m) + zs, s)
  {
    var xs := Copies(Sequence(cs), m - 1);
    Regroup(Repeated(cs, m - 1), cs, zs);
    SpliceStep(xs, cs, zs, Repeated(cs, m) + zs, s);
    assert Copies(Sequence(cs), m) + zs == xs + [Sequence(cs)] + zs;
  }

  lemma EmptyFront(ps: seq<Parser>, xs: seq<Parser>, ys: seq<Parser>, zs: seq<Parser>)
    ensures [] + ps + zs == ps + zs && [] + xs + ys + zs == xs + ys + zs
  {
  }

  lemma Regroup(xs: seq<Parser>, ys: seq<Parser>, zs: seq<Parser>)
    ensures xs + (ys + zs) == xs + ys + zs
  {
  }

  /** The step of ChainOfNested: a sequence of `cs` spliced in between `xs`
      and `zs`, where the flat list folds like `ws`. */
  lemma SpliceStep(xs: seq<Parser>, cs: seq<Parser>, zs: seq<Parser>, ws: seq<Parser>, s: string)
    requires WellTyped(Sequence(xs + (cs + zs))) && WellTyped(Sequence(ws))
    requires Chain(xs + (cs + zs), s) == Chain(ws, s)
    ensures WellTyped(Sequence(xs + [Sequence(cs)] + zs))
    ensures Chain(xs + [Sequence(cs)] + zs, s) == Chain(ws, s)
  {
    Regroup(xs, cs, zs);
    ChainFlatten(xs, cs, zs, s);
  }

  /** `(p * n) * m` parses like `p * (n * m)` for counts that are not
      negative. */
  lemma MulComposes(p: Parser, n: nat, m: nat, s: string)
    requires Textual(p)
    ensures WellTyped(Mul(Mul(p, n), m)) && WellTyped(Mul(p, n * m))
    ensures Run(Mul(Mul(p, n), m), s) == Run(Mul(p, n * m), s)
  {
    var cs := Copies(p, n);
    CopiesTyped(p, n, []);
    assert cs + [] == cs;
    ChainOfNested(cs, m, [], s);
    RepeatedCopies(p, n, m);
    assert Copies(Sequence(cs), m) + [] == Copies(Sequence(cs), m);
    assert Repeated(cs, m) + [] == Copies(p, n * m);
    SequenceIsChain(Copies(Sequence(cs), m), s);
    SequenceIsChain(Copies(p, n * m), s);
  }
}
