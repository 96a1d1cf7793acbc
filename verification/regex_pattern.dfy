/** The documented syntax of patterns, its meaning, and what the parser makes of it. */
module RegexPattern {
  import opened Characters
  import opened RegexLanguage
  import opened RegexYard
  import opened Wrappers

  datatype ClassChar = Raw(c: CodePoint) | Escaped(letter: CodePoint)

  datatype Item = Single(ch: ClassChar) | Span(from: ClassChar, to: ClassChar)

  datatype Token =
    | Plain(c: CodePoint)
    | Backslash(letter: CodePoint)
    | Dot
    | Brackets(negated: bool, items: seq<Item>, trailingDash: bool)

  datatype Bounds = Exactly(n: Text) | AtLeast(n: Text) | Between(n: Text, m: Text)

  datatype Pattern =
    | Leaf(token: Token)
    | Group(p: Pattern)
    | Then(p: Pattern, q: Pattern)
    | Or(p: Pattern, q: Pattern)
    | Quantified(p: Pattern, op: Postfix)
    | Repeated(p: Pattern, bounds: Bounds)

  /// ## Text

  function RenderChar(ch: ClassChar): (t: Text)
    ensures t != []
  {
    match ch
    case Raw(c) => [c]
    case Escaped(letter) => ['\\' as int, letter]
  }

  function RenderItem(item: Item): (t: Text)
    ensures t != []
  {
    match item
    case Single(ch) => RenderChar(ch)
    case Span(from, to) => RenderChar(from) + ['-' as int] + RenderChar(to)
  }

  function RenderItems(items: seq<Item>): Text {
    if items == [] then [] else RenderItem(items[0]) + RenderItems(items[1..])
  }

  function RenderToken(token: Token): (t: Text)
    ensures t != []
  {
    match token
    case Plain(c) => [c]
    case Backslash(letter) => ['\\' as int, letter]
    case Dot => ['.' as int]
    case Brackets(negated, items, dash) =>
      ['[' as int] + (if negated then ['^' as int] else []) + RenderItems(items)
      + (if dash then ['-' as int] else []) + [']' as int]
  }

  function RenderBounds(bounds: Bounds): Text {
    match bounds
    case Exactly(n) => n
    case AtLeast(n) => n + [',' as int]
    case Between(n, m) => n + [',' as int] + m
  }

  function PostfixSign(op: Postfix): CodePoint {
    match op
    case ZeroOrOne => '?' as int
    case ZeroOrMore => '*' as int
    case OneOrMore => '+' as int
  }

  function Render(p: Pattern): (t: Text)
    ensures t != []
  {
    match p
    case Leaf(token) => RenderToken(token)
    case Group(p) => ['(' as int] + Render(p) + [')' as int]
    case Then(p, q) => Render(p) + Render(q)
    case Or(p, q) => Render(p) + ['|' as int] + Render(q)
    case Quantified(p, op) => Render(p) + [PostfixSign(op)]
    case Repeated(p, bounds) => Render(p) + ['{' as int] + RenderBounds(bounds) + ['}' as int]
  }

  /// ## Well-formed patterns

  /** The documented escapes: what stands behind the backslash, and for which character. */
  const ESCAPES: map<CodePoint, CodePoint> := map[
    'f' as int := 0x0C, 'n' as int := 0x0A, 'r' as int := 0x0D, 't' as int := 0x09, 'v' as int := 0x0B,
    '^' as int := 0x5E, '$' as int := 0x24, '|' as int := 0x7C, '(' as int := 0x28, ')' as int := 0x29,
    '?' as int := 0x3F, '*' as int := 0x2A, '+' as int := 0x2B, '.' as int := 0x2E, '[' as int := 0x5B,
    ']' as int := 0x5D, '{' as int := 0x7B, '}' as int := 0x7D, '\\' as int := 0x5C]

  function CharValue(ch: ClassChar): Option<CodePoint> {
    match ch
    case Raw(c) => if c == ']' as int || c == '\\' as int then None else Some(c)
    case Escaped(letter) =>
      if letter == 'b' as int then Some(0x08) else if letter in ESCAPES then Some(ESCAPES[letter]) else None
  }

  /** A raw `-` after a single character starts a span, so it is a member only where it cannot. */
  predicate ItemsOk(items: seq<Item>, afterSingle: bool) {
    items != [] ==>
      && (afterSingle ==> FirstChar(items[0]) != Raw('-' as int))
      && match items[0]
         case Single(ch) => CharValue(ch).Some? && ItemsOk(items[1..], true)
         case Span(from, to) => CharValue(from).Some? && CharValue(to).Some? && ItemsOk(items[1..], false)
  }

  function FirstChar(item: Item): ClassChar {
    match item
    case Single(ch) => ch
    case Span(from, _) => from
  }

  predicate IsSpecial(c: CodePoint) {
    c in ['^' as int, '$' as int, '|' as int, '(' as int, ')' as int, '?' as int, '*' as int,
          '+' as int, '.' as int, '[' as int, '{' as int, '\\' as int]
  }

  predicate TokenOk(token: Token) {
    match token
    case Plain(c) => !IsSpecial(c)
    case Backslash(letter) => letter in ESCAPES
    case Dot => true
    case Brackets(negated, items, dash) =>
      && items != []
      && ItemsOk(items, false)
      && (!negated ==> FirstChar(items[0]) != Raw('^' as int))
      && (dash ==> items[|items| - 1].Single?)
  }

  function DigitsValue(digits: Text, r: nat): nat {
    if digits == [] then r
    else if !IsDigit(digits[0]) then 0
    else DigitsValue(digits[1..], r * 10 + (digits[0] - '0' as int))
  }

  predicate IsNumber(digits: Text) {
    && digits != []
    && (forall i :: 0 <= i < |digits| ==> IsDigit(digits[i]))
    && DigitsValue(digits, 0) < INFINITY_QUANTIFIER
  }

  function Lower(bounds: Bounds): nat {
    DigitsValue(bounds.n, 0)
  }

  /** The upper bound as the engine holds it, with 2^32 - 1 for none. */
  function Upper(bounds: Bounds): nat {
    match bounds
    case Exactly(n) => DigitsValue(n, 0)
    case AtLeast(_) => INFINITY_QUANTIFIER
    case Between(_, m) => DigitsValue(m, 0)
  }

  /** `a{0}` and `a{0,0}` are documented as unsupported. */
  predicate BoundsOk(bounds: Bounds) {
    && IsNumber(bounds.n)
    && (bounds.Between? ==> IsNumber(bounds.m))
    && Lower(bounds) <= Upper(bounds)
    && Upper(bounds) != 0
  }

  predicate IsFactor(p: Pattern) {
    !p.Then? && !p.Or?
  }

  predicate WellFormed(p: Pattern) {
    match p
    case Leaf(token) => TokenOk(token)
    case Group(p) => WellFormed(p)
    case Then(p, q) => IsFactor(p) && !q.Or? && WellFormed(p) && WellFormed(q)
    case Or(p, q) => !p.Or? && WellFormed(p) && WellFormed(q)
    case Quantified(p, _) => IsFactor(p) && WellFormed(p)
    case Repeated(p, bounds) => IsFactor(p) && WellFormed(p) && BoundsOk(bounds)
  }

  /// ## Meaning

  /** `c` is the character of an item, or in the span of it. */
  predicate ItemHolds(item: Item, c: CodePoint)
    requires CharValue(FirstChar(item)).Some? && (item.Span? ==> CharValue(item.to).Some?)
  {
    var first := CharValue(FirstChar(item)).value;
    if item.Span? then first <= c <= CharValue(item.to).value else c == first
  }

  lemma {:induction false} ItemOk(items: seq<Item>, afterSingle: bool, i: nat)
    requires ItemsOk(items, afterSingle) && i < |items|
    ensures CharValue(FirstChar(items[i])).Some? && (items[i].Span? ==> CharValue(items[i].to).Some?)
    decreases i
  {
    if i > 0 { ItemOk(items[1..], items[0].Single?, i - 1); }
  }

  /** `c` is one of the characters that a token stands for. */
  predicate Stands(token: Token, c: CodePoint)
    requires TokenOk(token)
  {
    match token
    case Plain(d) => c == d
    case Backslash(letter) => c == ESCAPES[letter]
    case Dot => true
    case Brackets(negated, items, dash) =>
      var listed :=
        (dash && c == 0x2D) || exists i :: 0 <= i < |items| && (ItemOk(items, false, i); ItemHolds(items[i], c));
      if negated then !listed else listed
  }

  ghost predicate Denotes(p: Pattern, w: Text)
    requires WellFormed(p)
    decreases p, 0, 0
  {
    match p
    case Leaf(token) => |w| == 1 && Stands(token, w[0])
    case Group(p) => Denotes(p, w)
    case Then(p, q) => exists i :: 0 <= i <= |w| && Denotes(p, w[..i]) && Denotes(q, w[i..])
    case Or(p, q) => Denotes(p, w) || Denotes(q, w)
    case Quantified(p, op) => Repeats(p, if op == OneOrMore then 1 else 0, op == ZeroOrOne, 1, w)
    case Repeated(p, bounds) => Repeats(p, Lower(bounds), !bounds.AtLeast?, Upper(bounds), w)
  }

  /** `w` is at least `least` and, if bounded, at most `most` repetitions of `p`. */
  ghost predicate Repeats(p: Pattern, least: nat, bounded: bool, most: nat, w: Text)
    requires WellFormed(p)
    decreases p, 2, 0
  {
    exists n: nat :: Within(n, least, bounded, most) && Power(p, n, w)
  }

  predicate Within(n: nat, least: nat, bounded: bool, most: nat) {
    least <= n && (bounded ==> n <= most)
  }

  /** `w` is the concatenation of `n` texts that `p` denotes. */
  ghost predicate Power(p: Pattern, n: nat, w: Text)
    requires WellFormed(p)
    decreases p, 1, n
  {
    if n == 0 then w == []
    else exists i :: 0 <= i <= |w| && Denotes(p, w[..i]) && Power(p, n - 1, w[i..])
  }

  /// ## The expression that the engine builds

  function ItemInterval(item: Item): Interval
    requires CharValue(FirstChar(item)).Some? && (item.Span? ==> CharValue(item.to).Some?)
  {
    var first := CharValue(FirstChar(item)).value;
    Interval(first, if item.Span? then CharValue(item.to).value else first)
  }

  function Intervals(items: seq<Item>, afterSingle: bool): (r: seq<Interval>)
    requires ItemsOk(items, afterSingle)
    ensures |r| == |items|
  {
    if items == [] then [] else [ItemInterval(items[0])] + Intervals(items[1..], items[0].Single?)
  }

  function TokenSym(token: Token): Sym
    requires TokenOk(token)
  {
    match token
    case Plain(c) => Exact(c)
    case Backslash(letter) => Exact(ESCAPES[letter])
    case Dot => Any
    case Brackets(negated, items, dash) =>
      Class(negated, Intervals(items, false) + if dash then [Interval('-' as int, '-' as int)] else [])
  }

  function Expression(p: Pattern): Regex
    requires WellFormed(p)
  {
    match p
    case Leaf(token) => Symbol(TokenSym(token))
    case Group(p) => Expression(p)
    case Then(p, q) => Cat(Expression(p), Expression(q))
    case Or(p, q) => Alt(Expression(p), Expression(q))
    case Quantified(p, op) => Many(op, Expression(p))
    case Repeated(p, bounds) => CatAll(QuantifiedOperands(Expression(p), Lower(bounds), Upper(bounds)))
  }
}
