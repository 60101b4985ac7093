/** Results and errors of the parsing engine (parsing.py: Result,
    PartialResult, ParserError, EndOfInputError, mismatch). */
module Values {

  /** The engine's two exception classes. EndOfInputError is a subclass of
      ParserError, so every end-of-input failure is also a parser error. */
  datatype Error = ParserError | EndOfInputError

  /** Whether a Python `except handler:` clause catches an exception of
      class `e`: `except ParserError` catches both, `except EndOfInputError`
      only the subclass. */
  predicate Catches(handler: Error, e: Error) {
    handler == ParserError || e == EndOfInputError
  }

  /** What a parse produces: the string-valued combinators produce text,
      sep_by produces the list of its element results. */
  datatype Value = Text(s: string) | Items(elems: seq<Value>)

  /** A complete `Result` (nothing remains) or a `PartialResult` carrying the
      remaining text at the moment it was returned. */
  datatype ParseResult = Complete(value: Value) | Partial(value: Value, remainder: string) {
    /** The text left on the cursor when this result was returned. */
    function Rest(): string {
      if Complete? then "" else remainder
    }
  }

  /** The `if input: PartialResult.create(v, input) else: Result(v)` idiom
      that ends most parsers. */
  function Shape(v: Value, rest: string): (r: ParseResult)
    ensures r.value == v && r.Rest() == rest
    ensures r.Partial? <==> rest != ""
  {
    if rest == "" then Complete(v) else Partial(v, rest)
  }

  /** The outcome of running a parser: it returns a result, raises one of the
      two errors (leaving `rest` on the cursor), or never returns (a loop
      that keeps succeeding without consuming). */
  datatype Outcome =
    | Success(result: ParseResult)
    | Failure(error: Error, rest: string)
    | Diverges

  /** The text left on the cursor after a parse that returned or raised. */
  function RestOf(o: Outcome): (rest: string)
    requires !o.Diverges?
  {
    if o.Success? then o.result.Rest() else o.rest
  }

  /** `a` is a suffix of `s`: what is left after consuming a prefix of `s`,
      one character at a time. */
  predicate Suffix(a: string, s: string)
    decreases |s|
  {
    |a| <= |s| && (a == s || (s != "" && Suffix(a, s[1..])))
  }

  /** A suffix is what dropping its length difference leaves. */
  lemma {:induction false} SuffixIsDrop(a: string, s: string)
    requires Suffix(a, s)
    ensures a == s[|s| - |a|..]
    decreases |s|
  {
    if a != s {
      SuffixIsDrop(a, s[1..]);
      assert s[1..][|s| - 1 - |a|..] == s[|s| - |a|..];
    }
  }

  lemma {:induction false} SuffixTransitive(a: string, b: string, c: string)
    requires Suffix(a, b) && Suffix(b, c)
    ensures Suffix(a, c)
    decreases |c|
  {
    if b != c {
      SuffixTransitive(a, b, c[1..]);
    }
  }

  lemma {:induction false} SuffixOfDrop(s: string, n: nat)
    requires n <= |s|
    ensures Suffix(s[n..], s)
    decreases n
  {
    if n > 0 {
      assert s[n..] == s[1..][n - 1..];
      SuffixOfDrop(s[1..], n - 1);
    }
  }

  /** Python's `repr` of a string, as far as `mismatch` looks at it: the text
      between quotes (escaping is not modelled). */
  function Repr(s: string): (r: string)
    ensures |r| == |s| + 2 && r[0] == '\'' && r[|r| - 1] == '\'' && r[1..|r| - 1] == s
  {
    "'" + s + "'"
  }

  /** `mismatch(expected, received)`: the error class it builds. The received
      text is empty or `repr('')` exactly when the input has run out. */
  function Mismatch(received: string): (e: Error)
    ensures e == EndOfInputError <==> received == "" || received == "''"
    ensures e != EndOfInputError ==> e == ParserError
  {
    if received == "" || received == Repr("") then EndOfInputError else ParserError
  }

  /** mismatch(received=repr(input)) reports end of input exactly when the
      remaining input is empty. */
  lemma MismatchOfRepr(s: string)
    ensures Mismatch(Repr(s)) == EndOfInputError <==> s == ""
  {
    if s != "" {
      assert |Repr(s)| > 2;
    }
  }

  /** A value-or-exception, for `Input.consume`, which returns the consumed
      text or raises EndOfInputError. */
  datatype Fallible<T> = Ok(value: T) | Raised(error: Error)
}
