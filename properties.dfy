/** What the parsers of parsing.py promise, proved about Semantics.Run:
    the result of each combinator, which ones never raise, which ones leave
    the cursor untouched when they raise, and when a result is partial. */
module Properties {
  import opened Values
  import opened Parsers
  import opened Semantics

  // ---------------------------------------------------------------------
  // constant and not_

  /** constant(t) succeeds exactly when the remaining text starts with `t`,
      returns `t` and leaves the rest; otherwise it consumes nothing and
      raises EndOfInputError exactly when no text remains. */
  lemma ConstantSpec(t: string, s: string)
    ensures var o := Run(Constant(t), s);
            && (o.Success? <==> t <= s)
            && (o.Success? ==>
                  o.result.value == Text(t) && t + o.result.Rest() == s &&
                  (o.result.Partial? <==> |t| < |s|))
            && (o.Failure? ==> o.rest == s && (o.error == EndOfInputError <==> s == ""))
  {
    MismatchOfRepr(s);
    if t <= s {
      assert t + s[|t|..] == s by {
        assert s[..|t|] == t;
      }
    }
  }

  /** not_(q) consumes and returns one character exactly when `q` raises and
      text remains; when `q` succeeds it raises ParserError; every failure
      leaves the cursor where it was. */
  lemma NotSpec(q: Parser, s: string)
    requires WellTyped(q)
    ensures var o := Run(Not(q), s);
            && (o.Diverges? <==> Run(q, s).Diverges?)
            && (o.Success? <==> Run(q, s).Failure? && s != "")
            && (o.Success? ==> o.result.value == Text(s[..1]) && o.result.Rest() == s[1..])
            && (o.Failure? ==> o.rest == s)
            && (o.Failure? ==> (o.error == EndOfInputError <==> Run(q, s).Failure?))
  {
  }

  /** not_(t) in front of a character `c` that does not start `t` returns
      `c` alone and leaves `t`. */
  lemma NotSkipsOneCharacter(t: string, c: char)
    requires t != "" && c != t[0]
    ensures Run(Not(Constant(t)), [c] + t) == Success(Partial(Text([c]), t))
  {
    var s := [c] + t;
    assert !(t <= s) by {
      assert s[0] != t[0];
    }
    assert Run(Constant(t), s) == ConstantRun(t, s) && ConstantRun(t, s).Failure?;
    assert s[..1] == [c] && s[1..] == t;
    assert Run(Not(Constant(t)), s) == NotRun(Constant(t), s);
  }

  // ---------------------------------------------------------------------
  // Combinators that never raise

  lemma {:induction false} ManyLoopNeverFails(q: Parser, s: string, acc: string)
    requires WellTyped(q) && StringValued(q)
    ensures !ManyLoop(q, s, acc).Failure?
    decreases |s|
  {
    if s != "" {
      match Run(q, s)
      case Success(r) =>
        if |r.Rest()| < |s| {
          ManyLoopNeverFails(q, r.Rest(), acc + r.value.s);
        }
      case _ =>
    }
  }

  lemma {:induction false} SepByLoopNeverFails(q: Parser, sep: Parser, s: string, items: seq<Value>)
    requires WellTyped(q) && WellTyped(sep)
    ensures !SepByLoop(q, sep, s, items).Failure?
    decreases |s|, if items == [] then 1 else 0
  {
    if s != "" {
      match SepByAttempt(q, sep, s, items != [])
      case Success(r) =>
        if !(items != [] && |r.Rest()| == |s|) {
          SepByLoopNeverFails(q, sep, r.Rest(), items + [r.value]);
        }
      case _ =>
    }
  }

  /** many, optional and sep_by never raise: they catch every ParserError of
      their children. */
  lemma NeverFails(p: Parser, s: string)
    requires WellTyped(p)
    requires p.Many? || p.Optional? || p.SepBy?
    ensures !Run(p, s).Failure?
  {
    match p
    case Many(q) => ManyLoopNeverFails(q, s, "");
    case SepBy(q, sep) => SepByLoopNeverFails(q, sep, s, []);
    case Optional(_) =>
  }

  // ---------------------------------------------------------------------
  // Atomicity on failure

  lemma {:induction false} OneOfLoopAtomic(ps: seq<Parser>, i: nat, s: string)
    requires i <= |ps|
    requires forall j :: 0 <= j < |ps| ==> WellTyped(ps[j]) && Atomic(ps[j])
    ensures OneOfLoop(ps, i, s).Failure? ==> OneOfLoop(ps, i, s).rest == s
    decreases OneOf(ps), 0, |ps| - i
  {
    if i < |ps| {
      AtomicRestoresOnFailure(ps[i], s);
      if Run(ps[i], s).Failure? {
        OneOfLoopAtomic(ps, i + 1, s);
      }
    }
  }

  lemma {:induction false} SequenceLoopRollsBack(ps: seq<Parser>, i: nat, s0: string, s: string, acc: string)
    requires i <= |ps| && Suffix(s, s0)
    requires forall j :: 0 <= j < |ps| ==> StringValued(ps[j]) && WellTyped(ps[j])
    ensures SequenceLoop(ps, i, s0, s, acc).Failure? ==> SequenceLoop(ps, i, s0, s, acc).rest == s0
    decreases |ps| - i
  {
    if i < |ps| {
      match Run(ps[i], s)
      case Success(r) =>
        SuffixTransitive(r.Rest(), s, s0);
        SequenceLoopRollsBack(ps, i + 1, s0, r.Rest(), acc + r.value.s);
      case _ =>
    }
  }

  /** An atomic parser that raises leaves the cursor exactly as it found it:
      constant, not_ and sequence always, one_of when its children do. */
  lemma {:induction false} AtomicRestoresOnFailure(p: Parser, s: string)
    requires WellTyped(p) && Atomic(p)
    ensures Run(p, s).Failure? ==> Run(p, s).rest == s
    decreases p, 1, 0
  {
    match p
    case Constant(_) =>
    case Not(_) =>
    case OneOf(ps) => OneOfLoopAtomic(ps, 0, s);
    case Many(_) => NeverFails(p, s);
    case Optional(_) => NeverFails(p, s);
    case SepBy(_, _) => NeverFails(p, s);
    case Sequence(ps) => SequenceLoopRollsBack(ps, 0, s, s, "");
  }

  lemma {:induction false} UntilLoopFailureKeepsInput(q: Parser, s: string, acc: string)
    requires WellTyped(q)
    ensures UntilLoop(q, s, acc).Failure? ==> UntilLoop(q, s, acc).rest != ""
    decreases |s|
  {
    if s != "" {
      match Run(q, s)
      case Failure(e, _) =>
        if !Catches(EndOfInputError, e) {
          UntilLoopFailureKeepsInput(q, s[1..], acc + s[..1]);
        }
      case _ =>
    }
  }

  lemma {:induction false} OneOfLoopFailureKeepsInput(ps: seq<Parser>, i: nat, s: string)
    requires i <= |ps| && s != ""
    requires forall j :: 0 <= j < |ps| ==> WellTyped(ps[j])
    ensures OneOfLoop(ps, i, s).Failure? ==> OneOfLoop(ps, i, s).rest != ""
    decreases OneOf(ps), 0, |ps| - i
  {
    if i < |ps| {
      FailureKeepsInput(ps[i], s);
      if Run(ps[i], s).Failure? {
        OneOfLoopFailureKeepsInput(ps, i + 1, Run(ps[i], s).rest);
      }
    }
  }

  /** No parser raises having consumed all of a non-empty input: until raises
      only from a position with text left, and the others are atomic. */
  lemma {:induction false} FailureKeepsInput(p: Parser, s: string)
    requires WellTyped(p) && s != ""
    ensures Run(p, s).Failure? ==> Run(p, s).rest != ""
    decreases p, 1, 0
  {
    match p
    case Constant(_) =>
    case Not(_) =>
    case OneOf(ps) => OneOfLoopFailureKeepsInput(ps, 0, s);
    case Many(_) => NeverFails(p, s);
    case Optional(_) => NeverFails(p, s);
    case SepBy(_, _) => NeverFails(p, s);
    case Sequence(ps) => SequenceLoopRollsBack(ps, 0, s, s, "");
    case Until(q) => UntilLoopFailureKeepsInput(q, s, "");
  }

  /** The probe `t + u` of UntilNotAtomic raises ParserError in front of a
      character that does not start `t`. */
  lemma ProbeMismatches(t: string, u: string, c: char)
    requires t != "" && c != t[0]
    ensures Run(Sequence([Constant(t), Constant(u)]), [c] + t) == Failure(ParserError, [c] + t)
  {
    var ps, s := [Constant(t), Constant(u)], [c] + t;
    MismatchOfRepr(s);
    assert !(t <= s) by {
      assert s[0] != t[0];
    }
    assert Run(ps[0], s) == Failure(ParserError, s);
    assert SequenceLoop(ps, 0, s, s, "") == Failure(ParserError, s);
  }

  /** The probe `t + u` of UntilNotAtomic runs out of input on `t`. */
  lemma ProbeRunsOut(t: string, u: string)
    requires u != ""
    ensures Run(Sequence([Constant(t), Constant(u)]), t) == Failure(EndOfInputError, t)
  {
    var ps := [Constant(t), Constant(u)];
    MismatchOfRepr("");
    assert t <= t && t[|t|..] == "";
    assert Run(ps[0], t).Success? && Run(ps[0], t).result.Rest() == "";
    assert Run(ps[1], "") == Failure(EndOfInputError, "");
    assert SequenceLoop(ps, 1, t, "", t) == Failure(EndOfInputError, t);
    assert "" + t == t;
    assert SequenceLoop(ps, 0, t, t, "") == SequenceLoop(ps, 1, t, "", "" + t);
  }

  /** until is not atomic: with the probe `t + u`, it consumes a first
      character `c`, then the probe runs out of input on `t`, and the error
      is raised with `c` still consumed. */
  lemma UntilNotAtomic(t: string, u: string, c: char)
    requires t != "" && u != "" && c != t[0]
    ensures Run(Until(Sequence([Constant(t), Constant(u)])), [c] + t) == Failure(EndOfInputError, t)
  {
    var q, s := Sequence([Constant(t), Constant(u)]), [c] + t;
    ProbeMismatches(t, u, c);
    ProbeRunsOut(t, u);
    assert s[0..] == s && s[1..] == t;
    UntilEndOfInputKeepsConsumed(q, s, 1);
  }

  // ---------------------------------------------------------------------
  // Result shape

  lemma {:induction false} ManyLoopShape(q: Parser, s: string, acc: string)
    requires WellTyped(q) && StringValued(q)
    ensures var o := ManyLoop(q, s, acc);
            o.Success? && o.result.Partial? ==> o.result.remainder != ""
    decreases |s|
  {
    if s != "" {
      FailureKeepsInput(q, s);
      match Run(q, s)
      case Success(r) =>
        if |r.Rest()| < |s| {
          ManyLoopShape(q, r.Rest(), acc + r.value.s);
        }
      case _ =>
    }
  }

  lemma {:induction false} UntilLoopShape(q: Parser, s: string, acc: string)
    requires WellTyped(q)
    ensures var o := UntilLoop(q, s, acc);
            o.Success? && o.result.Partial? ==> o.result.remainder != ""
    decreases |s|
  {
    if s != "" {
      match Run(q, s)
      case Failure(e, _) =>
        if !Catches(EndOfInputError, e) {
          UntilLoopShape(q, s[1..], acc + s[..1]);
        }
      case _ =>
    }
  }

  /** constant, many, not_, sep_by, sequence and until return a
      PartialResult exactly when text remains, and a complete Result when
      none does. */
  lemma PartialExactlyWhenTextRemains(p: Parser, s: string)
    requires WellTyped(p) && !p.Optional? && !p.OneOf?
    ensures var o := Run(p, s);
            o.Success? ==> (o.result.Partial? <==> o.result.Rest() != "")
  {
    match p
    case Many(q) => ManyLoopShape(q, s, "");
    case Until(q) => UntilLoopShape(q, s, "");
    case SepBy(q, sep) => SepByLoopShape(q, sep, s, []);
    case Sequence(ps) => SequenceLoopShape(ps, 0, s, s, "");
    case _ =>
  }

  lemma SepByLoopAdvances(q: Parser, sep: Parser, s: string, items: seq<Value>)
    requires WellTyped(q) && WellTyped(sep) && s != ""
    requires SepByAttempt(q, sep, s, items != []).Success?
    requires !(items != [] && |SepByAttempt(q, sep, s, items != []).result.Rest()| == |s|)
    ensures var r := SepByAttempt(q, sep, s, items != []).result;
            SepByLoop(q, sep, s, items) == SepByLoop(q, sep, r.Rest(), items + [r.value])
  {
  }

  lemma {:induction false} SepByLoopShape(q: Parser, sep: Parser, s: string, items: seq<Value>)
    requires WellTyped(q) && WellTyped(sep)
    ensures var o := SepByLoop(q, sep, s, items);
            o.Success? && o.result.Partial? ==> o.result.remainder != ""
    decreases |s|, if items == [] then 1 else 0
  {
    if s != "" {
      match SepByAttempt(q, sep, s, items != [])
      case Success(r) =>
        if !(items != [] && |r.Rest()| == |s|) {
          SepByLoopAdvances(q, sep, s, items);
          SepByLoopShape(q, sep, r.Rest(), items + [r.value]);
        }
      case _ =>
    }
  }

  lemma {:induction false} SequenceLoopShape(ps: seq<Parser>, i: nat, s0: string, s: string, acc: string)
    requires i <= |ps| && Suffix(s, s0)
    requires forall j :: 0 <= j < |ps| ==> StringValued(ps[j]) && WellTyped(ps[j])
    ensures var o := SequenceLoop(ps, i, s0, s, acc);
            o.Success? && o.result.Partial? ==> o.result.remainder != ""
    decreases |ps| - i
  {
    if i < |ps| {
      match Run(ps[i], s)
      case Success(r) =>
        SuffixTransitive(r.Rest(), s, s0);
        SequenceLoopShape(ps, i + 1, s0, r.Rest(), acc + r.value.s);
      case _ =>
    }
  }

  // ---------------------------------------------------------------------
  // optional

  /** optional(q) never raises: it returns q's result unchanged when q
      succeeds, and an empty text where q's failure left the cursor
      otherwise, which is the starting position when q is atomic. */
  lemma OptionalSpec(q: Parser, s: string)
    requires WellTyped(q)
    ensures var o := Run(Optional(q), s);
            && !o.Failure?
            && (Run(q, s).Success? ==> o == Run(q, s))
            && (Run(q, s).Failure? ==> o == Success(Partial(Text(""), Run(q, s).rest)))
            && (Run(q, s).Failure? && Atomic(q) ==> o == Success(Partial(Text(""), s)))
  {
    if Atomic(q) {
      AtomicRestoresOnFailure(q, s);
    }
  }

  /** optional breaks the rule that a result is partial exactly when text
      remains: when its child raises at the end of the input it still
      returns a PartialResult, with an empty remainder. */
  lemma OptionalPartialAtEnd(q: Parser)
    requires WellTyped(q) && Run(q, "").Failure?
    ensures Run(Optional(q), "") == Success(Partial(Text(""), ""))
  {
    OptionalSpec(q, "");
  }

  // ---------------------------------------------------------------------
  // one_of

  lemma {:induction false} OneOfLoopNeverEndOfInput(ps: seq<Parser>, i: nat, s: string)
    requires i <= |ps|
    requires forall j :: 0 <= j < |ps| ==> WellTyped(ps[j])
    ensures OneOfLoop(ps, i, s).Failure? ==> OneOfLoop(ps, i, s).error == ParserError
    decreases |ps| - i
  {
    if i < |ps| && Run(ps[i], s).Failure? {
      OneOfLoopNeverEndOfInput(ps, i + 1, Run(ps[i], s).rest);
    }
  }

  /** one_of raises only a plain ParserError, even when every child ran out
      of input. */
  lemma OneOfNeverEndOfInput(ps: seq<Parser>, s: string)
    requires WellTyped(OneOf(ps))
    ensures Run(OneOf(ps), s).Failure? ==> Run(OneOf(ps), s).error == ParserError
  {
    OneOfLoopNeverEndOfInput(ps, 0, s);
  }

  lemma OneOfLoopPassesOver(ps: seq<Parser>, k: nat, s: string)
    requires k < |ps|
    requires forall j :: 0 <= j < |ps| ==> WellTyped(ps[j])
    requires Run(ps[k], s).Failure?
    ensures OneOfLoop(ps, k, s) == OneOfLoop(ps, k + 1, Run(ps[k], s).rest)
  {
  }

  /** Alternatives the model covers that leave the cursor alone when they
      raise. */
  predicate AtomicAlternatives(ps: seq<Parser>) {
    forall j :: 0 <= j < |ps| ==> WellTyped(ps[j]) && Atomic(ps[j])
  }

  /** An atomic alternative that raises hands the same text to the next. */
  lemma OneOfLoopPassesOverAtomic(ps: seq<Parser>, k: nat, s: string)
    requires k < |ps| && AtomicAlternatives(ps)
    requires Run(ps[k], s).Failure?
    ensures OneOfLoop(ps, k, s) == OneOfLoop(ps, k + 1, s)
  {
    assert WellTyped(ps[k]) && Atomic(ps[k]);
    AtomicRestoresOnFailure(ps[k], s);
    OneOfLoopPassesOver(ps, k, s);
  }

  /** The alternatives `ps[k..i]` all raise on `s`. */
  predicate FailFrom(ps: seq<Parser>, k: nat, i: nat, s: string)
    requires k <= i <= |ps| && AtomicAlternatives(ps)
  {
    forall j :: k <= j < i ==> Run(ps[j], s).Failure?
  }

  lemma {:induction false} OneOfLoopSkips(ps: seq<Parser>, k: nat, i: nat, s: string)
    requires k <= i <= |ps| && AtomicAlternatives(ps)
    requires FailFrom(ps, k, i, s)
    ensures OneOfLoop(ps, k, s) == OneOfLoop(ps, i, s)
    decreases i - k
  {
    if k < i {
      OneOfLoopPassesOverAtomic(ps, k, s);
      assert FailFrom(ps, k + 1, i, s);
      OneOfLoopSkips(ps, k + 1, i, s);
    }
  }

  /** With atomic children, one_of returns what the first child that does
      not raise returns, in list order. */
  lemma OneOfFirstSuccess(ps: seq<Parser>, s: string, i: nat)
    requires AtomicAlternatives(ps)
    requires i < |ps|
    requires forall j :: 0 <= j < i ==> Run(ps[j], s).Failure?
    requires !Run(ps[i], s).Failure?
    ensures Run(OneOf(ps), s) == Run(ps[i], s)
  {
    OneOfLoopSkips(ps, 0, i, s);
  }

  /** With atomic children that all raise, one_of raises ParserError and
      leaves the cursor where it was. */
  lemma OneOfAllFail(ps: seq<Parser>, s: string)
    requires AtomicAlternatives(ps)
    requires forall j :: 0 <= j < |ps| ==> Run(ps[j], s).Failure?
    ensures Run(OneOf(ps), s) == Failure(ParserError, s)
  {
    OneOfLoopSkips(ps, 0, |ps|, s);
  }

  // ---------------------------------------------------------------------
  // many

  /** A text outcome with `t` put in front of its text. */
  function Prefixed(t: string, o: Outcome): (p: Outcome)
    requires o.Success? ==> o.result.value.Text?
  {
    if o.Success? then Success(o.result.(value := Text(t + o.result.value.s))) else o
  }

  lemma PrefixedTwice(a: string, b: string, o: Outcome)
    requires o.Success? ==> o.result.value.Text?
    ensures Prefixed(a, Prefixed(b, o)) == Prefixed(a + b, o)
  {
    if o.Success? {
      assert a + (b + o.result.value.s) == a + b + o.result.value.s;
    }
  }

  lemma {:induction false} ManyLoopAccumulates(q: Parser, s: string, acc: string)
    requires WellTyped(q) && StringValued(q)
    ensures ManyLoop(q, s, acc) == Prefixed(acc, ManyLoop(q, s, ""))
    decreases |s|
  {
    assert acc + "" == acc;
    if s != "" {
      var o := Run(q, s);
      if o.Success? && |o.result.Rest()| < |s| {
        var t, rest := o.result.value.s, o.result.Rest();
        assert ManyLoop(q, s, acc) == ManyLoop(q, rest, acc + t);
        assert ManyLoop(q, s, "") == ManyLoop(q, rest, "" + t);
        assert "" + t == t;
        ManyLoopAccumulates(q, rest, acc + t);
        ManyLoopAccumulates(q, rest, t);
        PrefixedTwice(acc, t, ManyLoop(q, rest, ""));
      }
    }
  }

  /** many(q) is q followed by many(q): at the end of the input it returns
      an empty complete result, when q raises an empty partial result where
      q left the cursor, and when q consumes something q's text followed by
      what many(q) returns on the rest. An iteration that consumes nothing
      never ends. */
  lemma ManyUnfolds(q: Parser, s: string)
    requires WellTyped(Many(q))
    ensures s == "" ==> Run(Many(q), s) == Success(Complete(Text("")))
    ensures s != "" && Run(q, s).Failure? ==>
              Run(Many(q), s) == Success(Partial(Text(""), Run(q, s).rest))
    ensures s != "" && Run(q, s).Success? && |Run(q, s).result.Rest()| < |s| ==>
              Run(Many(q), s) ==
              Prefixed(Run(q, s).result.value.s, Run(Many(q), Run(q, s).result.Rest()))
    ensures s != "" && Run(q, s).Success? && Run(q, s).result.Rest() == s ==> Run(Many(q), s).Diverges?
  {
    if s != "" && Run(q, s).Success? {
      var r := Run(q, s).result;
      if |r.Rest()| < |s| {
        ManyLoopAccumulates(q, r.Rest(), "" + r.value.s);
        assert "" + r.value.s == r.value.s;
      }
    }
  }

  /** `t` repeated `n` times. */
  function Repeat(t: string, n: nat): (r: string)
    ensures n > 0 ==> |t| <= |r|
  {
    if n == 0 then "" else t + Repeat(t, n - 1)
  }

  lemma {:induction false} ManyLoopOfRepeat(t: string, n: nat, acc: string)
    requires t != ""
    ensures ManyLoop(Constant(t), Repeat(t, n), acc) == Success(Complete(Text(acc + Repeat(t, n))))
    decreases n
  {
    if n > 0 {
      var s := Repeat(t, n);
      assert s == t + Repeat(t, n - 1);
      assert t <= s && s[|t|..] == Repeat(t, n - 1);
      ManyLoopOfRepeat(t, n - 1, acc + t);
      assert acc + t + Repeat(t, n - 1) == acc + s;
    }
  }

  /** many(t) over `n` copies of a non-empty literal `t` consumes them all and
      returns them as one complete result. */
  lemma ManyOfRepeat(t: string, n: nat)
    requires t != ""
    ensures Run(Many(Constant(t)), Repeat(t, n)) == Success(Complete(Text(Repeat(t, n))))
  {
    ManyLoopOfRepeat(t, n, "");
    assert "" + Repeat(t, n) == Repeat(t, n);
  }

  // ---------------------------------------------------------------------
  // until

  lemma {:induction false} UntilLoopSkips(q: Parser, s: string, j: nat, k: nat)
    requires WellTyped(q) && j <= k <= |s|
    requires forall i :: j <= i < k ==> Run(q, s[i..]).Failure? && Run(q, s[i..]).error == ParserError
    ensures UntilLoop(q, s[j..], s[..j]) == UntilLoop(q, s[k..], s[..k])
    decreases k - j
  {
    if j < k {
      var here := s[j..];
      assert here != "" && here[1..] == s[j + 1..];
      assert s[..j] + here[..1] == s[..j + 1];
      assert Run(q, here).Failure? && !Catches(EndOfInputError, Run(q, here).error);
      assert UntilLoop(q, here, s[..j]) == UntilLoop(q, here[1..], s[..j] + here[..1]);
      UntilLoopSkips(q, s, j + 1, k);
    }
  }

  /** until(q) stops at the first position where q succeeds: it returns the
      text before it, leaves the cursor there, and the probe consumes
      nothing. */
  lemma UntilStopsAtFirstMatch(q: Parser, s: string, k: nat)
    requires WellTyped(q) && k < |s|
    requires forall i :: 0 <= i < k ==> Run(q, s[i..]).Failure? && Run(q, s[i..]).error == ParserError
    requires Run(q, s[k..]).Success?
    ensures Run(Until(q), s) == Success(Partial(Text(s[..k]), s[k..]))
  {
    UntilLoopSkips(q, s, 0, k);
    assert s[0..] == s && s[..0] == "";
    assert Run(Until(q), s) == UntilLoop(q, s, "");
    assert UntilLoop(q, s[k..], s[..k]) == Success(Partial(Text(s[..k]), s[k..]));
  }

  /** until(q) re-raises an end-of-input from a probe without giving back the
      characters it consumed before that position. */
  lemma UntilEndOfInputKeepsConsumed(q: Parser, s: string, k: nat)
    requires WellTyped(q) && k < |s|
    requires forall i :: 0 <= i < k ==> Run(q, s[i..]).Failure? && Run(q, s[i..]).error == ParserError
    requires Run(q, s[k..]).Failure? && Run(q, s[k..]).error == EndOfInputError
    ensures Run(Until(q), s) == Failure(EndOfInputError, s[k..])
  {
    UntilLoopSkips(q, s, 0, k);
    assert s[0..] == s && s[..0] == "";
    assert Run(Until(q), s) == UntilLoop(q, s, "");
    assert UntilLoop(q, s[k..], s[..k]) == Failure(EndOfInputError, s[k..]);
  }

  /** When q raises a plain ParserError at every position, until(q) consumes
      everything and returns it as a complete result. */
  lemma UntilConsumesAll(q: Parser, s: string)
    requires WellTyped(q)
    requires forall i :: 0 <= i < |s| ==> Run(q, s[i..]).Failure? && Run(q, s[i..]).error == ParserError
    ensures Run(Until(q), s) == Success(Complete(Text(s)))
  {
    UntilLoopSkips(q, s, 0, |s|);
    assert s[0..] == s && s[..0] == "" && s[|s|..] == "" && s[..|s|] == s;
    assert Run(Until(q), s) == UntilLoop(q, s, "");
  }

  // ---------------------------------------------------------------------
  // sep_by

  /** sep_by's first attempt is the element parser alone; when it raises,
      sep_by rolls back and returns an empty list, whatever the separator. */
  lemma SepByFirstElement(q: Parser, sep: Parser, s: string)
    requires WellTyped(q) && WellTyped(sep) && s != ""
    requires Run(q, s).Failure?
    ensures Run(SepBy(q, sep), s) == Success(Partial(Items([]), s))
  {
    assert SepByAttempt(q, sep, s, false) == Run(q, s);
    assert Run(SepBy(q, sep), s) == SepByLoop(q, sep, s, []);
  }

  /** A separator that matched before the element parser raised is rolled
      back with it: sep_by returns the elements so far and leaves the cursor
      in front of the separator. */
  lemma SepByDropsDanglingSeparator(q: Parser, sep: Parser, s: string, items: seq<Value>)
    requires WellTyped(q) && WellTyped(sep) && s != "" && items != []
    requires Run(sep, s).Success? && Run(q, Run(sep, s).result.Rest()).Failure?
    ensures SepByLoop(q, sep, s, items) == Success(Partial(Items(items), s))
  {
  }

  /** `n` copies of the value `v`. */
  function Replicate(v: Value, n: nat): (vs: seq<Value>)
    ensures |vs| == n && forall i :: 0 <= i < n ==> vs[i] == v
  {
    if n == 0 then [] else [v] + Replicate(v, n - 1)
  }

  /** With at least one element collected, one attempt of sep_by(t, d) on
      `d + t + rest` consumes the separator and the element. */
  lemma SepByAttemptOfJoined(t: string, d: string, rest: string)
    ensures SepByAttempt(Constant(t), Constant(d), d + (t + rest), true) == Success(Shape(Text(t), rest))
  {
    var s := d + (t + rest);
    assert d <= s && s[|d|..] == t + rest;
    assert Run(Constant(d), s) == Success(Shape(Text(d), t + rest));
    assert t <= t + rest && (t + rest)[|t|..] == rest;
    assert Run(Constant(t), t + rest) == Success(Shape(Text(t), rest));
  }

  lemma RepeatCons(d: string, t: string, n: nat)
    requires n > 0
    ensures Repeat(d + t, n) == d + (t + Repeat(d + t, n - 1))
  {
  }

  lemma AppendReplicate(items: seq<Value>, v: Value, n: nat)
    requires n > 0
    ensures items + [v] + Replicate(v, n - 1) == items + Replicate(v, n)
  {
    assert Replicate(v, n) == [v] + Replicate(v, n - 1);
  }

  lemma SepByLoopRepeatStep(q: Parser, sep: Parser, w: string, v: Value, n: nat, items: seq<Value>)
    requires WellTyped(q) && WellTyped(sep) && w != "" && items != [] && n > 0
    requires SepByAttempt(q, sep, Repeat(w, n), true) == Success(Shape(v, Repeat(w, n - 1)))
    ensures SepByLoop(q, sep, Repeat(w, n), items) == SepByLoop(q, sep, Repeat(w, n - 1), items + [v])
  {
    var s, rest := Repeat(w, n), Repeat(w, n - 1);
    assert s == w + rest;
    assert |rest| < |s|;
    SepByLoopAdvances(q, sep, s, items);
  }

  /** Once an element is collected, sep_by over `n` copies of a chunk `w`
      that one attempt (separator, then element) consumes exactly, with the
      value `v`, collects `n` more copies of `v` and reaches the end. */
  lemma {:induction false} SepByLoopOfRepeat(q: Parser, sep: Parser, w: string, v: Value, n: nat, items: seq<Value>)
    requires WellTyped(q) && WellTyped(sep) && w != "" && items != []
    requires forall k :: 0 < k <= n ==> SepByAttempt(q, sep, Repeat(w, k), true) == Success(Shape(v, Repeat(w, k - 1)))
    ensures SepByLoop(q, sep, Repeat(w, n), items) == Success(Complete(Items(items + Replicate(v, n))))
    decreases n
  {
    if n > 0 {
      SepByLoopRepeatStep(q, sep, w, v, n, items);
      SepByLoopOfRepeat(q, sep, w, v, n - 1, items + [v]);
      AppendReplicate(items, v, n);
    } else {
      assert items + Replicate(v, 0) == items;
    }
  }

  /** sep_by(t, d) on `t + r` collects its first `t` and goes on with `r`. */
  lemma SepByStartsJoined(t: string, d: string, r: string, s: string)
    requires t != "" && s == t + r
    ensures SepByLoop(Constant(t), Constant(d), s, []) == SepByLoop(Constant(t), Constant(d), r, [Text(t)])
  {
    assert t <= s && s[|t|..] == r;
    assert Run(Constant(t), s) == Success(Shape(Text(t), r));
    assert SepByAttempt(Constant(t), Constant(d), s, false) == Success(Shape(Text(t), r));
    assert [] + [Text(t)] == [Text(t)];
  }

  lemma JoinedAttempts(t: string, d: string, n: nat)
    ensures forall k :: 0 < k <= n ==>
              SepByAttempt(Constant(t), Constant(d), Repeat(d + t, k), true) == Success(Shape(Text(t), Repeat(d + t, k - 1)))
  {
    forall k | 0 < k <= n
      ensures SepByAttempt(Constant(t), Constant(d), Repeat(d + t, k), true) == Success(Shape(Text(t), Repeat(d + t, k - 1)))
    {
      RepeatCons(d, t, k);
      SepByAttemptOfJoined(t, d, Repeat(d + t, k - 1));
    }
  }

  /** sep_by(t, d) over `t` followed by `n` copies of `d + t` collects the
      `n + 1` elements, in order, as a complete result. */
  lemma SepByOfJoined(t: string, d: string, n: nat)
    requires t != ""
    ensures WellTyped(SepBy(Constant(t), Constant(d)))
    ensures Run(SepBy(Constant(t), Constant(d)), t + Repeat(d + t, n)) ==
            Success(Complete(Items(Replicate(Text(t), n + 1))))
  {
    assert WellTyped(Constant(t)) && WellTyped(Constant(d));
    var r := Repeat(d + t, n);
    SepByStartsJoined(t, d, r, t + r);
    JoinedAttempts(t, d, n);
    SepByLoopOfRepeat(Constant(t), Constant(d), d + t, Text(t), n, [Text(t)]);
    assert [Text(t)] + Replicate(Text(t), n) == Replicate(Text(t), n + 1);
  }
}
