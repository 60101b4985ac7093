# python-parsing in Dafny

A model of `parsing.py`, a combinator parsing framework written in Python. It
has three parts:

- A backtracking cursor `Input`. It holds the remaining text, the text
  consumed so far, and a stack of checkpoints.
- One parser primitive, `constant`, and the combinators `many`, `not_`,
  `one_of`, `optional`, `sep_by`, `sequence` and `until`.
- The operators of class `Parser` (`+`, `*`, `|` and `separated_by`) and the
  coercion `Parser.coerce`, which builds parser trees from strings, results,
  lists and other parsers.

The model has two layers.

- **A reference semantics** (module `Semantics`). `Run(p, s)` is what parser
  `p` does to an input whose remaining text is `s`. It returns one of:
  - a `Success` with a `Complete` or `Partial` result;
  - a `Failure` with the error class (`ParserError`, or its subclass
    `EndOfInputError`) and the text the cursor is left at;
  - `Diverges`, for the inputs on which the Python loops never end.

  Each `while` or `for` loop of the source is a recursive function over that
  loop's variables.
- **An imperative engine** (module `Engine`). It drives a `Cursor.Input`
  object in place, with `begin`, `commit`, `rollback` and `consume`, the way
  the parse methods do. Each parse method is proved to compute exactly
  `Run(p, old(input.value))`. Each one also keeps `_consumed + value` fixed.
  Whenever it returns or raises, the checkpoint stack is back at the depth it
  had on entry.

The properties of the combinators are lemmas about `Run`, in modules
`Properties` and `Laws`. They cover:

- atomicity on failure;
- the classification of errors;
- result shape;
- first-match order in `one_of`;
- where `until` stops;
- the algebra of `+`, `|` and `*`.

Module `Findings` models one place where the code as written does something
its authors evidently did not intend.

The files, in dependency order:

- `values.dfy`: errors, results, outcomes, `mismatch`.
- `parsers.dfy`: the parser tree.
- `semantics.dfy`: `Run`.
- `cursor.dfy`: `Input`.
- `engine.dfy`: the parse methods.
- `coercion.dfy`: `coerce`, the combinator constructors and the operators.
- `sequence_node.dfy`: `sequence.append`, `insert` and `pop`.
- `properties.dfy`: the combinator properties.
- `laws.dfy`: composition laws.
- `findings.dfy`: the finding.

Some behaviours of the code are easy to misread. The model follows the code
in each of them:

- `until` returns a complete result holding all the text when every probe
  raises a plain `ParserError`. A probe that raises `EndOfInputError` is
  re-raised instead, with the characters already consumed kept.
- `constant(t)` on text that is a proper prefix of `t` raises a plain
  `ParserError`, not end of input, because `mismatch` sees non-empty
  received text.
- `|` builds a two-element `one_of` and does not flatten.
- `*` builds a `sequence` of `n` copies.
- `coerce` raises `TypeError` on anything it cannot convert.
- When the child fails, `optional` always returns a `PartialResult`, even with
  nothing remaining.
- `optional` does not roll back a child that raises after consuming (an
  `until` that ran out of input): its empty result is returned where the
  child left the cursor.
- `one_of` takes no checkpoint. `many` has no minimum count.

## Model

| member | source | states |
|---|---|---|
| Values.Shape | parsing.py:175-178 | The result carries the value and the remaining text, and it is partial exactly when text remains. |
| Values.Repr | parsing.py:180 | `repr(s)` is `s` between two quote characters: two characters longer, and stripping the quotes gives `s` back. |
| Values.Mismatch | parsing.py:146-150 | `mismatch` builds an `EndOfInputError` exactly when the received text is empty or is `repr('')`. Otherwise it builds a plain `ParserError`. |
| Values.MismatchOfRepr | parsing.py:146-150 | `mismatch(received=repr(s))` builds an `EndOfInputError` exactly when `s` is empty. |
| Parsers.Copies | parsing.py:64-65 | `[self for i in range(0, n)]` has `max(n, 0)` elements, each of them `self`. |
| Semantics.Run | parsing.py:32-33 | The remaining text after any parse that ends is a suffix of the input. A string-valued parser returns text. |
| Semantics.ConstantRun | parsing.py:172-180 | `constant` never diverges, leaves a suffix, and returns text. |
| Semantics.NotRun | parsing.py:216-229 | `not_` leaves a suffix and returns text. The child is not changed; see Findings. |
| Semantics.OptionalRun | parsing.py:241-249 | `optional` leaves a suffix, and returns text when its child is string-valued. |
| Semantics.ManyLoop | parsing.py:204-213 | The `many` loop leaves a suffix and returns text. |
| Semantics.OneOfLoop | parsing.py:232-238 | The `one_of` loop leaves a suffix, and returns text when every alternative is string-valued. |
| Semantics.SepByAttempt | parsing.py:258-262 | One `sep_by` attempt (separator first once an element exists) leaves a suffix. |
| Semantics.SepByLoop | parsing.py:252-272 | The `sep_by` loop leaves a suffix and returns a list. |
| Semantics.SequenceLoop | parsing.py:279-293 | The `sequence` loop leaves a suffix of the checkpointed text and returns text. |
| Semantics.UntilLoop | parsing.py:321-336 | The `until` loop leaves a suffix and returns text. |
| Cursor.Input.constructor | parsing.py:103-106 | A new Input holds the text, with nothing consumed and an empty stack. |
| Cursor.Input.Begin | parsing.py:108-109 | Pushes `(value, _consumed)` and changes neither field. |
| Cursor.Input.Commit | parsing.py:111-112 | Pops the newest checkpoint and changes neither field. |
| Cursor.Input.Rollback | parsing.py:128-129 | Restores both fields from the newest checkpoint, pops it, and keeps `_consumed + value`. |
| Cursor.Input.NonEmpty | parsing.py:102 | An Input, a string subclass, is true exactly when text remains. This is the test behind `while input` and `if input` (parsing.py:175, 194, 206, 223, 244, 257, 269, 290 and 323). |
| Cursor.Input.Consume | parsing.py:114-121 | When `n <= len(value)`, returns `value[0:n]`, moves it to the consumed text, and keeps `_consumed + value`. Otherwise raises `EndOfInputError` and changes nothing. |
| Cursor.BeginThenRollback | parsing.py:108-129 | `begin`, a `consume(n)` of any `n`, then `rollback` is an exact undo of value, consumed text and stack. |
| Engine.Parse | parsing.py:32-33 | Running any parser on the cursor gives `Run` of the text that remained. It keeps `_consumed + value`, and when the parse ends it leaves the cursor at the outcome's remaining text with the stack balanced. |
| Engine.Call | parsing.py:38-42 | Calling a parser on text runs it on a fresh Input and gives `Run` of the text. |
| Engine.Match | parsing.py:123-126 | `input.match(x)` raises `TypeError` exactly when `x` is not coercible, and then the cursor is untouched. Otherwise it runs the coerced parser as `Run` says. |
| Engine.ParseConstant | parsing.py:172-180 | `constant.parse` on the cursor equals `Run`, with the cursor at the remaining text and the stack unchanged. |
| Engine.ParseMany | parsing.py:204-213 | The `while input` loop equals `Run(Many(q))`. A child success that consumes nothing is divergence. |
| Engine.ParseNot | parsing.py:216-229 | `begin`, child, `rollback`, then `consume(1)` or raise. Equals `Run(Not(q))` with the stack balanced. |
| Engine.ParseOneOf | parsing.py:232-238 | The `for` loop over the alternatives equals `Run(OneOf(ps))`. |
| Engine.ParseOptional | parsing.py:241-249 | Equals `Run(Optional(q))`. |
| Engine.ParseSepBy | parsing.py:252-272 | Each attempt runs under its own checkpoint, committed or rolled back. The whole loop equals `Run(SepBy(q, sep))` with the stack balanced. |
| Engine.ParseSequence | parsing.py:279-293 | The `result +=` loop under one checkpoint equals `Run(Sequence(ps))`. |
| Engine.ParseUntil | parsing.py:321-336 | The probing loop, always rolled back, equals `Run(Until(q))`. |
| Coercion.Coerce | parsing.py:76-87 | Raises `TypeError` exactly when the object, or an element of a list inside it, is not a parser, string, result or list. A list becomes a sequence of its coerced elements, in order. |
| Coercion.CoerceAll | parsing.py:100 | The elements are coerced in order. The whole raises `TypeError` exactly when some element is not coercible. |
| Coercion.Unary | parsing.py:89-91 | The unary combinator over the coerced child. `TypeError` exactly when the child is not coercible. |
| Coercion.Binary | parsing.py:93-96 | `sep_by` over both coerced arguments. `TypeError` exactly when either is not coercible. |
| Coercion.Multary | parsing.py:98-100 | `one_of` or `sequence` over the elements coerced in order. `TypeError` exactly when one is not coercible. |
| Coercion.SeparatedBy | parsing.py:35-36 | `p.separated_by(sep)` is `sep_by` with `p` as its element parser and the coerced `sep` as its separator. `TypeError` exactly when `sep` is not coercible. |
| Coercion.Operands | parsing.py:45-61 | What an operand contributes to `+`, as the `isinstance(…, sequence)` tests decide. A sequence contributes its children, which rebuild it. Any other parser contributes itself alone. |
| Coercion.Add | parsing.py:44-52 | `self + other` is a sequence. A sequence on the right gets `self` in front. Otherwise the operands of `self` get the coerced `other` at the end. `TypeError` exactly when `other` is not coercible. |
| Coercion.RAdd | parsing.py:54-62 | `other + self` puts the coerced `other` in front of the operands of `self`. `TypeError` exactly when `other` is not coercible. |
| Coercion.Mul | parsing.py:64-68 | `self * n` and `n * self` build a sequence of `max(n, 0)` copies of `self`. |
| Coercion.Or | parsing.py:70-71 | `self.__or__(other)` is `one_of([self, other])`: two alternatives, `self` and then the coerced `other`. `TypeError` exactly when `other` is not coercible. |
| Coercion.ROr | parsing.py:73-74 | `self.__ror__(other)` is `one_of([other, self])`: two alternatives, the coerced `other` and then `self`. `TypeError` exactly when `other` is not coercible. |
| SequenceNodes.InsertPosition | parsing.py:314-315 | Where `list.insert(i, x)` puts `x`: at `i` in range, counted from the end when negative, clamped to the list. |
| SequenceNodes.PopPosition | parsing.py:317-318 | `list.pop(i)` succeeds exactly when `-n <= i < n`, and removes position `i` or `n + i`. |
| SequenceNodes.SequenceNode.constructor | parsing.py:274-277 | A node holds the given children. |
| SequenceNodes.SequenceNode.AsParser | parsing.py:274-277 | The node stands for the sequence of its current children. |
| SequenceNodes.SequenceNode.Append | parsing.py:311-312 | `append(p)` adds `p` at the end of the children. |
| SequenceNodes.SequenceNode.Insert | parsing.py:314-315 | `insert(i, p)` puts `p` where `list.insert` would, and keeps the other children in order. |
| SequenceNodes.SequenceNode.Pop | parsing.py:317-318 | `pop(i)` returns and removes that child, or raises `IndexError` and changes nothing. |
| SequenceNodes.AddToNode | parsing.py:45-47 | `self + other` with `other` a sequence node puts `self` in front of that node's own children and returns the node, whose tree is what Coercion.Add gives. |
| SequenceNodes.NodeAdd | parsing.py:48-50 | `self + other` with `self` a sequence node appends the coerced `other` to the node's own children and returns the node. The result is what Coercion.Add gives, and `TypeError` changes nothing. |
| SequenceNodes.NodeRAdd | parsing.py:58-60 | `other + self` with `self` a sequence node inserts the coerced `other` at the front of the node's own children and returns the node. The result is what Coercion.RAdd gives, and `TypeError` changes nothing. |
| Properties.ConstantSpec | parsing.py:172-180 | `constant(t)` succeeds exactly when the text starts with `t`. It then returns `t` and leaves exactly the rest, partial exactly when more text follows. On failure it keeps the input, and the error is end of input exactly when the text is empty. |
| Properties.NotSpec | parsing.py:216-229 | `not_(q)` succeeds exactly when `q` raises and text remains. It then returns one character. On failure the cursor is restored, and the error is end of input exactly when `q` itself raised. |
| Properties.NotSkipsOneCharacter | test_parsing.py:140-147 | `not_(t)` on `c + t`, with `c` not starting `t`, returns a partial result `c` with remainder `t`. |
| Properties.ManyLoopNeverFails | parsing.py:206-213 | The `many` loop never raises. |
| Properties.SepByLoopNeverFails | parsing.py:257-272 | The `sep_by` loop never raises. |
| Properties.NeverFails | parsing.py:203-272 | `many`, `optional` and `sep_by` never raise `ParserError`. |
| Properties.OneOfLoopAtomic | parsing.py:233-238 | With atomic alternatives, a failing `one_of` loop leaves the input where it found it. |
| Properties.SequenceLoopRollsBack | parsing.py:285-287 | A failing `sequence` loop rolls back to the checkpoint. |
| Properties.AtomicRestoresOnFailure | parsing.py:168-336 | Every atomic parser that raises leaves the cursor untouched. That covers constant, not_ and sequence; many, optional and sep_by; and one_of over atomic alternatives. |
| Properties.UntilLoopFailureKeepsInput | parsing.py:329-331 | The `until` loop raises only while text remains. |
| Properties.OneOfLoopFailureKeepsInput | parsing.py:233-238 | A failing `one_of` loop over non-empty text leaves text. |
| Properties.FailureKeepsInput | parsing.py:168-336 | No parser raises with the cursor emptied. |
| Properties.ProbeMismatches | parsing.py:279-287 | `sequence([t, u])` on `c + t`, with `c` not starting `t`, raises a plain `ParserError` and rolls back. |
| Properties.ProbeRunsOut | parsing.py:279-287 | `sequence([t, u])` on exactly `t` raises `EndOfInputError` and rolls back. |
| Properties.UntilNotAtomic | parsing.py:329-334 | `until(sequence([t, u]))` on `c + t` consumes `c` and then re-raises end of input, leaving only `t`. The consumed character is not restored. |
| Properties.ManyLoopShape | parsing.py:211-213 | `many` returns a partial result only with text remaining. |
| Properties.UntilLoopShape | parsing.py:328-336 | `until` returns a partial result only with text remaining. |
| Properties.PartialExactlyWhenTextRemains | parsing.py:175-178 | For every parser except `optional` and `one_of`, a result is partial exactly when text remains. |
| Properties.SepByLoopAdvances | parsing.py:257-267 | A committed `sep_by` attempt that consumes continues the loop from its remaining text, with its value appended. |
| Properties.SepByLoopShape | parsing.py:269-272 | `sep_by` returns a partial result only with text remaining. |
| Properties.SequenceLoopShape | parsing.py:290-293 | `sequence` returns a partial result only with text remaining. |
| Properties.OptionalPartialAtEnd | parsing.py:248-249 | For every child that raises on empty text, `optional` returns a partial `''` with an empty remainder. |
| Properties.OptionalSpec | parsing.py:241-249 | `optional(q)` never raises. It returns `q`'s result on success, and on failure `''`, partial, where `q` left the cursor, which is the original text when `q` is atomic. |
| Properties.OneOfLoopNeverEndOfInput | parsing.py:237-238 | The `one_of` loop raises only a plain `ParserError`. |
| Properties.OneOfNeverEndOfInput | parsing.py:231-238 | `one_of` raises only a plain `ParserError`, even when every alternative ran out of input. |
| Properties.OneOfLoopPassesOver | parsing.py:233-236 | An alternative that raises hands the cursor, as it left it, to the next one. |
| Properties.OneOfLoopPassesOverAtomic | parsing.py:233-236 | An atomic alternative that raises hands the same text to the next one. |
| Properties.OneOfLoopSkips | parsing.py:233-236 | Atomic alternatives that all raise are skipped. |
| Properties.OneOfFirstSuccess | parsing.py:233-235 | With atomic alternatives, `one_of` returns what the first alternative that does not raise returns. |
| Properties.OneOfAllFail | parsing.py:237-238 | With atomic alternatives that all raise, `one_of` raises `ParserError` at the original text. |
| Properties.ManyLoopAccumulates | parsing.py:205-208 | The `many` loop from an accumulator equals the loop from `''` with the accumulator in front. |
| Properties.ManyUnfolds | parsing.py:204-213 | `many` on empty text is a complete `''`. A first failure gives a partial `''`. A first success that consumes is joined in front of `many` on the rest. One that consumes nothing diverges. |
| Properties.ManyLoopOfRepeat | test_parsing.py:134-138 | The `many` loop over `n` copies of a non-empty `t` consumes all of them. |
| Properties.ManyOfRepeat | test_parsing.py:134-138 | `many(t)` on `t * n` returns exactly `t * n`, complete. |
| Properties.UntilLoopSkips | parsing.py:332-334 | Each probe that raises a plain `ParserError` consumes exactly one character. |
| Properties.UntilStopsAtFirstMatch | parsing.py:323-328 | `until(q)` returns the text before the first position where `q` succeeds, partial and left at that position. |
| Properties.UntilEndOfInputKeepsConsumed | parsing.py:329-331 | An end-of-input error from a probe is re-raised with the characters already consumed not restored. |
| Properties.UntilConsumesAll | parsing.py:335-336 | When `q` raises a plain `ParserError` at every position, `until(q)` returns all of the text, complete. |
| Properties.SepByFirstElement | parsing.py:257-270 | When the first element fails, `sep_by` returns `[]` and leaves the text unconsumed. |
| Properties.SepByDropsDanglingSeparator | parsing.py:258-265 | A separator that matched before the element failed is rolled back, and the collected list is returned. |
| Properties.SepByAttemptOfJoined | parsing.py:258-262 | An attempt over separator and element consumes both and returns the element. |
| Properties.SepByLoopRepeatStep | parsing.py:257-267 | One committed attempt over a repeated separator-element text. |
| Properties.SepByLoopOfRepeat | parsing.py:257-272 | Over a repeated text where every attempt returns the same value, the `sep_by` loop collects all `n` of them and consumes everything. |
| Properties.SepByStartsJoined | parsing.py:260-262 | The first element is tried without a separator. |
| Properties.JoinedAttempts | parsing.py:258-262 | Every attempt over a repeated separator-element text consumes one repetition and returns the element. |
| Properties.SepByOfJoined | test_parsing.py:163-167 | `sep_by(t, d)` on `t` joined by `d` (`n + 1` times) returns the list of `n + 1` `t`s, complete. |
| Laws.Join | parsing.py:284 | Joining one child's text in front of a later outcome. A later failure rolls back to the checkpoint. |
| Laws.Chain | parsing.py:283-287 | A sequence as a fold of its children. It returns text and rolls back on failure. |
| Laws.Then | parsing.py:283-287 | A first outcome followed by the remaining children. It rolls back to the start on failure. |
| Laws.JoinJoin | parsing.py:284 | Joining twice is joining the concatenation. |
| Laws.SequenceLoopIsChain | parsing.py:279-293 | The `sequence` loop from child `i` is the accumulator joined with the fold of the remaining children. |
| Laws.SequenceIsChain | parsing.py:279-293 | `sequence(ps)` is the fold of its children. |
| Laws.ThenJoin | parsing.py:283-287 | Joining distributes over `Then`. |
| Laws.ChainCons | parsing.py:283-284 | The fold starts with the first child. |
| Laws.ChainAppend | parsing.py:283-287 | The fold over `ys + zs` is the fold over `ys` followed by `zs`. |
| Laws.SequenceAppend | parsing.py:279-293 | `sequence(ys + zs)` runs `sequence(ys)` and then `zs` under one rollback point. |
| Laws.ChainFlatten | parsing.py:279-293 | The fold with a nested sequence equals the fold with its children spliced in. |
| Laws.SequenceFlatten | parsing.py:279-293 | A nested sequence behaves like its children spliced into the outer one. |
| Laws.Literals | parsing.py:81 | The strings `ts` as constants, in order. |
| Laws.SequenceOfStrings | parsing.py:98-100 | `sequence` over a list of strings coerces each to a constant, in order: it is the sequence of Literals. |
| Laws.SequenceOfTokens | test_parsing.py:169-173 | `sequence(tokens)`, as its constructor builds it from strings, on `''.join(tokens) + s` returns the joined tokens and leaves `s`. |
| Laws.ChainOfLiterals | test_parsing.py:169-173 | The fold of literal constants over their concatenation consumes it and returns it. |
| Laws.SequenceOfLiterals | test_parsing.py:169-173 | `sequence(tokens)` on `''.join(tokens) + s` returns the joined tokens and leaves `s`. |
| Laws.FirstOf | parsing.py:233-238 | An independent first-match definition of `one_of`, each alternative tried where the previous failure left the cursor. It only ever raises a plain `ParserError`. |
| Laws.Else | parsing.py:233-238 | One alternative's outcome is kept unless it raised, and then the remaining alternatives are tried. The only error it raises is a plain `ParserError`. |
| Laws.OneOfLoopIsFirstOf | parsing.py:233-238 | The `one_of` loop from `i` is first-match over the remaining alternatives. |
| Laws.OneOfIsFirstOf | parsing.py:231-238 | `one_of(ps)` is first-match over `ps`. |
| Laws.FirstOfAppend | parsing.py:233-238 | First-match over `ys + zs` tries `ys` and then `zs`. |
| Laws.FirstOfCons | parsing.py:233-236 | First-match starts with the first alternative. |
| Laws.FirstOfFlatten | parsing.py:233-238 | First-match with a nested `one_of` equals first-match with its alternatives spliced in. |
| Laws.OneOfFlatten | parsing.py:231-238 | A nested `one_of` behaves like its alternatives spliced into the outer one. |
| Laws.SeparatedByIsSepBy | parsing.py:35-36 | `p.separated_by(sep)` parses as `sep_by(p, coerce(sep))`, and so never raises. |
| Laws.OrAssociative | parsing.py:70-71 | `one_of([one_of([a, b]), c])` and `one_of([a, one_of([b, c])])`, as the or-operator builds them, parse alike, although they are different trees. |
| Laws.SpliceOperands | parsing.py:44-52 | A sequence operand behaves like its children spliced in. |
| Laws.AddSpliced | parsing.py:44-52 | The children of `a + b` behave like the operands of `a` and then of `b`. |
| Laws.AddIsSequence | parsing.py:44-52 | `a + b` parses like the sequence of the operands of `a` and `b`. |
| Laws.AddTextual | parsing.py:44-52 | Adding two string-valued parsers never raises `TypeError` and gives a string-valued sequence. |
| Laws.AddSequenceLeft | parsing.py:48-50 | A sequence plus `c` parses like its children followed by the operands of `c`. |
| Laws.AddThenOperands | parsing.py:44-52 | The children of `a + b`, followed by the operands of `c`, parse like the three sets of operands. |
| Laws.AddLeftGrouped | parsing.py:44-52 | `(a + b) + c` parses like the operands of `a`, `b` and `c` in order. |
| Laws.AddRightGrouped | parsing.py:44-52 | `a + (b + c)` parses like the operands of `a`, `b` and `c` in order. |
| Laws.AddAssociative | parsing.py:44-52 | `(a + b) + c` and `a + (b + c)` parse alike. |
| Laws.CopiesAdd | parsing.py:65 | `m` copies followed by `n` copies are `m + n` copies. |
| Laws.RepeatedCopies | parsing.py:64-65 | The `n` copies of `p` written out `m` times are `n * m` copies of `p`. |
| Laws.ChainOfNested | parsing.py:64-65 | `m` copies of `sequence(cs)`, followed by any textual tail, fold like `cs` written out `m` times followed by it. |
| Laws.NestedStep | parsing.py:64-65 | One more copy of `sequence(cs)` in front keeps the two folds of ChainOfNested equal. |
| Laws.MulComposes | parsing.py:64-65 | `(p * n) * m` parses like `p * (n * m)`. |
| Findings.NotAsWritten | parsing.py:229 | One call of `not_` as written, for a child that runs no `not_` over a sequence itself, has the outcome the model gives. Its child changes exactly when it is a sequence that matched, and then gains `constant('Matched unwanted input: ')` in front. |
| Findings.SingleLiteralMatches | parsing.py:279-293 | `sequence([t])` on `t` returns `t`. |
| Findings.PrefixedSequenceFails | parsing.py:279-287 | Once the message is in front, the sequence raises on text that does not start with it. |
| Findings.NotRejectionChangesChild | parsing.py:229 | As written, `not_(sequence([t]))` rejects `t` on the first call and accepts a character of it on the second. The model rejects it every time. |

## Left out

- `regex` and the named instances `char`, `digit`, `eof`, `letter` and `whitespace` (parsing.py:182-200, 339-343): they delegate to Python's `re` engine.
- The `typefu` library (`derived(str)`, `Mimic`): it is foreign code. `Input` is plain fields here, and `Result`/`PartialResult` is the datatype `ParseResult`. A partial result's remainder is the remaining text at the moment of return. The live `Input` object it aliases in Python is not modelled.
- The `@parser` decorator (parsing.py:153-165): it wraps an arbitrary host function.
- `sequence`'s iterator protocol (`__iter__`, `__next__`, `next`): it is iteration plumbing.
- Coercion.Add, Coercion.RAdd: these build the resulting tree as a new value. In Python, `+` inserts into or appends to an operand `sequence` in place and returns that same object. The in-place form is `SequenceNodes.AddToNode`, `NodeAdd` and `NodeRAdd`, proved to give the same tree. The parser trees elsewhere are values, so the sharing of one mutated `sequence` object by several parsers is not modelled.
- SequenceNodes.NodeRAdd: requires that `other` is not a parser. Python calls `__radd__` only when the left operand is not a parser; a parser on the left goes through `__add__`, which is NodeAdd or AddToNode.
- Error messages: only the error class is modelled. One message matters for behaviour, the one `not_` builds with `+`; it is under Findings.
- WellTyped restriction: `many` stringifies its child's results with `str(...)`, and `sequence` joins them with `+`. A list-valued child (`sep_by`) under either is left out, because Python formats the list's `repr` there, or raises `TypeError` on `'' + list`. Every parser in the model is `WellTyped`.
- Engine.Parse: requires `WellTyped(p)`, for the reason above. The other parse methods have the same precondition.
- Cursor.Input.Commit, Cursor.Input.Rollback: require a non-empty checkpoint stack. Python raises `IndexError` there. The parse methods never call them without a matching `begin`.
- Coercion.Mul: takes an integer count. In Python, `p * 'x'` or `p * 2.5` raises `TypeError` from `range` (parsing.py:65). Host values other than integers are not modelled as right operands of `*`.
- Cursor.Input.Consume: takes a natural count. In Python, `consume(-1)` passes the `len(value) >= chars` test and slices `value[0:-1]` (parsing.py:114-121). No parser in the code passes a negative count.
- Values.Mismatch: `repr` is modelled as quoting with `'` and no escaping. Only whether there is received text matters to the error class.
- Divergence: `many` loops forever when its child succeeds without consuming. `sep_by` loops forever when an attempt after the first element (separator, then element) succeeds without consuming. This is the outcome `Diverges` rather than a fuel bound, and the engine returns it at the first such iteration.
- Recursion depth, and Python's `RecursionError`, are not modelled.
- Tests that rely on names or behaviour this revision does not have are not followed. `test_constant_mul`/`rmul` expect `constant * 3` to be a `constant`, but the code builds a `sequence`. `test_other_mul` and `test_other_rmul` use `repeat`. The tests from `test_surrounded_by` on use `surrounded_by`, `ignored` and `trimmed`.
- Properties.SepByOfJoined: covers `t` joined by `d`, one repeated token. The test's `one_of` over five distinct random tokens is not modelled. The general loop lemma `Properties.SepByLoopOfRepeat` needs every attempt to return the same value.
- Properties.OneOfFirstSuccess, Properties.OneOfAllFail: stated for atomic alternatives. A non-atomic alternative (`until`) that raises passes on a moved cursor, as `Properties.OneOfLoopPassesOver` states.
- Findings.NotAsWritten: covers one call whose child does not itself run a `not_` over a sequence. A nested `not_` over a sequence changes its own child during the call. When an enclosing `until`, `many` or `sep_by` probes that node again, it sees the changed tree, so the as-written outcome can differ from the model's on the first call. An example is `not_(sequence([until(not_(sequence(['a']))), 'b']))` on `"aab"`: as written it returns a partial `'a'` at `"ab"`, and the model raises. Such calls are not modelled.
- `setup.py`: packaging metadata.

## Findings

| source | as written | input that shows it | evidently intended | confidence | as-written member | corrected member |
|---|---|---|---|---|---|---|
| parsing.py:229 | `'Matched unwanted input: ' + self.parser` goes through `Parser.__radd__`. When the child is a `sequence`, that inserts `constant('Matched unwanted input: ')` at the front of the child's own list. | `p = not_(sequence([t]))` with `t[0] != 'M'`. `p(t)` raises `ParserError`. A second `p(t)` tries the changed child, which now fails, so it returns `t[0]`. | Building the error message leaves the child unchanged, so `p(t)` raises every time. | not executed | Findings.NotRejectionChangesChild | Semantics.NotRun |
