/** not_ as written in parsing.py: when its child matches, the error message
    `'Matched unwanted input: ' + self.parser` is built with Parser.__radd__,
    which, for a child that is a sequence, inserts constant(message) at the
    front of that child's own list. The not_ parser is then a different
    parser from the next call on. The rest of the model (Semantics.NotRun,
    Engine.ParseNot) leaves the child alone, as the raise evidently
    intends. */
module Findings {
  import opened Values
  import opened Parsers
  import opened Semantics
  import opened Coercion

  /** The text in front of the child in not_'s error message. */
  const NotMessage: string := "Matched unwanted input: "

  /** One call of not_.parse as written, for a child whose own parse runs
      no not_ over a sequence: the outcome, and the child as it stands after
      the call. The outcome is the model's; the child changes exactly when it
      is a sequence that matched, by gaining constant(message) in front. A
      not_ over a sequence nested inside the child changes its own child
      during the call, and a later probe of it by until, many or sep_by then
      sees the changed tree; that is not captured here. */
  function NotAsWritten(q: Parser, s: string): (r: (Outcome, Parser))
    requires WellTyped(q)
    ensures r.0 == Run(Not(q), s)
    ensures r.1 != q <==> q.Sequence? && Run(q, s).Success?
    ensures r.1 != q ==> r.1 == Sequence([Constant(NotMessage)] + q.parsers)
    ensures WellTyped(r.1)
  {
    var o := Run(Not(q), s);
    if q.Sequence? && Run(q, s).Success? then
      var after := RAdd(q, StrObj(NotMessage)).value;
      assert after.parsers == [Constant(NotMessage)] + q.parsers;
      assert |after.parsers| != |q.parsers|;
      assert forall i :: 0 <= i < |after.parsers| ==>
               after.parsers[i] == if i == 0 then Constant(NotMessage) else q.parsers[i - 1];
      (o, after)
    else
      (o, q)
  }

  /** The sequence of the single literal `t` matches `t`. */
  lemma SingleLiteralMatches(t: string)
    ensures Run(Sequence([Constant(t)]), t) == Success(Complete(Text(t)))
  {
    var ps := [Constant(t)];
    assert t <= t && t[|t|..] == "";
    assert Run(ps[0], t) == Success(Complete(Text(t)));
    assert "" + t == t;
    assert SequenceLoop(ps, 1, t, "", t) == Success(Complete(Text(t)));
  }

  /** After the message is put in front, the sequence no longer matches a
      text that does not start with the message. */
  lemma PrefixedSequenceFails(t: string)
    requires t != "" && t[0] != NotMessage[0]
    ensures Run(Sequence([Constant(NotMessage), Constant(t)]), t).Failure?
  {
    var ps := [Constant(NotMessage), Constant(t)];
    assert !(NotMessage <= t) by {
      assert NotMessage[0] != t[0];
    }
    assert Run(ps[0], t).Failure?;
  }

  /** not_(sequence([t])) on `t` rejects the input the first time and, with
      its child changed, accepts the same input the second time; the model
      rejects it every time. */
  lemma NotRejectionChangesChild(t: string)
    requires t != "" && t[0] != NotMessage[0]
    ensures var q := Sequence([Constant(t)]);
            var first := NotAsWritten(q, t);
            first.0 == Failure(ParserError, t) &&
            NotAsWritten(first.1, t).0 == Success(Shape(Text(t[..1]), t[1..]))
    ensures Run(Not(Sequence([Constant(t)])), t) == Failure(ParserError, t)
  {
    var q := Sequence([Constant(t)]);
    SingleLiteralMatches(t);
    var first := NotAsWritten(q, t);
    assert first.0 == Run(Not(q), t) == NotRun(q, t) == Failure(ParserError, t);
    var after := first.1;
    assert after == Sequence([Constant(NotMessage), Constant(t)]);
    PrefixedSequenceFails(t);
    assert Run(after, t).Failure?;
    assert NotAsWritten(after, t).0 == Run(Not(after), t) == NotRun(after, t)
           == Success(Shape(Text(t[..1]), t[1..]));
  }
}
