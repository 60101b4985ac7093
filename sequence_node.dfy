/** The list methods a `sequence` exposes on its children (`append`,
    `insert`, `pop`), which change the node in place. */
module SequenceNodes {
  import opened Parsers
  import opened Coercion

  datatype Option<T> = None | Some(value: T)

  /** Where Python's `list.insert(i, x)` puts `x` in a list of length `n`:
      before position `i`, counting from the end when `i` is negative, and
      clamped to the list. */
  function InsertPosition(i: int, n: nat): (j: nat)
    ensures j <= n
    ensures 0 <= i <= n ==> j == i
    ensures i < 0 && 0 <= n + i ==> j == n + i
    ensures i > n ==> j == n
    ensures n + i < 0 ==> j == 0
  {
    if i < 0 then (if n + i < 0 then 0 else n + i)
    else if i > n then n
    else i
  }

  /** The element Python's `list.pop(i)` removes from a list of length `n`,
      or None when it raises IndexError (an empty list or `i` out of range). */
  function PopPosition(i: int, n: nat): (j: Option<nat>)
    ensures j.Some? <==> 0 <= n + i && i < n
    ensures j.Some? ==> j.value < n && (j.value == i || j.value == n + i)
  {
    if 0 <= i < n then Some(i)
    else if i < 0 && 0 <= n + i then Some(n + i)
    else None
  }

  /** A `sequence` node whose child list is changed in place. */
  class SequenceNode {
    var parsers: seq<Parser>

    constructor (ps: seq<Parser>)
      ensures parsers == ps
    {
      parsers := ps;
    }

    /** The parser this node currently stands for. */
    function AsParser(): (p: Parser)
      reads this
      ensures p.Sequence? && p.parsers == parsers
    {
      Sequence(parsers)
    }

    /** `append(p)`: add a child at the end. */
    method Append(p: Parser)
      modifies this
      ensures parsers == old(parsers) + [p]
    {
      parsers := parsers + [p];
    }

    /** `insert(i, p)`: add a child before position `i`, as list.insert
      places it. */
    method Insert(i: int, p: Parser)
      modifies this
      ensures var j := InsertPosition(i, |old(parsers)|);
              parsers == old(parsers)[..j] + [p] + old(parsers)[j..]
      ensures |parsers| == |old(parsers)| + 1
    {
      var j := InsertPosition(i, |parsers|);
      parsers := parsers[..j] + [p] + parsers[j..];
    }

    /** `pop(i)` (Python's default is `pop(-1)`): remove and return the child
      at `i`; on an empty list or an index out of range, raise IndexError
      (None here) and change nothing. */
    method Pop(i: int) returns (r: Option<Parser>)
      modifies this
      ensures r.Some? <==> 0 <= |old(parsers)| + i && i < |old(parsers)|
      ensures r.None? ==> parsers == old(parsers)
      ensures r.Some? ==>
                var j := PopPosition(i, |old(parsers)|).value;
                r.value == old(parsers)[j] && parsers == old(parsers)[..j] + old(parsers)[j + 1..]
    {
      match PopPosition(i, |parsers|)
      case None =>
        r := None;
      case Some(j) =>
        r := Some(parsers[j]);
        parsers := parsers[..j] + parsers[j + 1..];
    }
  }

  /** `self + other` with `other` a sequence node: `self` is inserted at the
      front of `other`'s own children and `other` itself is returned. The
      tree it stands for afterwards is the one Coercion.Add builds. */
  method AddToNode(self: Parser, other: SequenceNode) returns (r: Parser)
    modifies other
    ensures other.parsers == [self] + old(other.parsers)
    ensures r == other.AsParser()
    ensures Add(self, ParserObj(Sequence(old(other.parsers)))) == Converted(r)
  {
    other.Insert(0, self);
    r := other.AsParser();
  }

  /** `self + other` with `self` a sequence node and `other` not a sequence:
      the coerced `other` is appended to `self`'s own children and `self` is
      returned; a TypeError from coerce changes nothing. A sequence `other`
      is handled by AddToNode, and `self` is left alone. */
  method NodeAdd(self: SequenceNode, other: HostValue) returns (r: Converted<Parser>)
    modifies self
    ensures r == Add(old(self.AsParser()), other)
    ensures r.Converted? && !(other.ParserObj? && other.p.Sequence?) ==>
              self.parsers == old(self.parsers) + [Coerce(other).value] && r.value == self.AsParser()
    ensures !r.Converted? || (other.ParserObj? && other.p.Sequence?) ==> self.parsers == old(self.parsers)
  {
    if other.ParserObj? && other.p.Sequence? {
      r := Add(self.AsParser(), other);
    } else {
      match Coerce(other)
      case TypeError =>
        r := TypeError;
      case Converted(q) =>
        self.Append(q);
        r := Converted(self.AsParser());
    }
  }

  /** `other + self` with `self` a sequence node and `other` not a parser:
      the coerced `other` is inserted at the front of `self`'s own children
      and `self` is returned; a TypeError from coerce changes nothing. */
  method NodeRAdd(self: SequenceNode, other: HostValue) returns (r: Converted<Parser>)
    requires !other.ParserObj?
    modifies self
    ensures r == RAdd(old(self.AsParser()), other)
    ensures r.Converted? ==>
              self.parsers == [Coerce(other).value] + old(self.parsers) && r.value == self.AsParser()
    ensures !r.Converted? ==> self.parsers == old(self.parsers)
  {
    match Coerce(other)
    case TypeError =>
      r := TypeError;
    case Converted(q) =>
      ghost var before := self.parsers;
      self.Insert(0, q);
      assert self.parsers == [q] + before by {
        assert before[..0] == [] && before[0..] == before;
      }
      r := Converted(self.AsParser());
  }
}
