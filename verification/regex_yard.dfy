/** The pattern parser as a function.

  A shunting yard whose operands are expressions. `GenericRegex.Parse` is the same yard with
  automaton fragments for operands; this one says which expression each fragment stands for. */
module RegexYard {
  import opened Characters
  import opened RegexLanguage
  import opened Wrappers

  datatype Operator = Postfixed(op: Postfix) | Concatenation | Alternation | LeftParenthesis

  const INFINITY_QUANTIFIER := 0xFFFF_FFFF
  const WORD := 0x1_0000_0000

  /** `AssertionFails` stands for a violated RAPIDJSON_ASSERT. */
  datatype Result<+T> = Ok(value: T) | Rejected | AssertionFails

  datatype Yard = Yard(operands: seq<Regex>, operators: seq<Operator>, atoms: seq<nat>,
                       anchorBegin: bool, anchorEnd: bool)

  datatype Compiled = Compiled(regex: Regex, anchorBegin: bool, anchorEnd: bool)

  /// ## Operators

  function Eval(operands: seq<Regex>, op: Operator): Result<seq<Regex>> {
    var n := |operands|;
    match op
    case Concatenation =>
      if n < 2 then AssertionFails
      else Ok(operands[..n - 2] + [Cat(operands[n - 2], operands[n - 1])])
    case Alternation =>
      if n < 2 then Rejected
      else Ok(operands[..n - 2] + [Alt(operands[n - 2], operands[n - 1])])
    case Postfixed(op) =>
      if n < 1 then Rejected
      else Ok(operands[..n - 1] + [Many(op, operands[n - 1])])
    case LeftParenthesis => AssertionFails
  }

  /** How far down the operator stack a token forces evaluation: `|` down to the nearest `|` or
      `(`, `)` down to the nearest `(`, and the end of the pattern down to the bottom. */
  datatype Barrier = AtAlternation | AtParenthesis | AtBottom

  predicate Stops(barrier: Barrier, op: Operator) {
    match barrier
    case AtAlternation => op == Alternation || op == LeftParenthesis
    case AtParenthesis => op == LeftParenthesis
    case AtBottom => false
  }

  function Reduce(barrier: Barrier, operands: seq<Regex>, operators: seq<Operator>)
    : Result<(seq<Regex>, seq<Operator>)>
    decreases |operators|
  {
    if operators == [] || Stops(barrier, operators[|operators| - 1]) then
      Ok((operands, operators))
    else
      match Eval(operands, operators[|operators| - 1])
      case Ok(os) => Reduce(barrier, os, operators[..|operators| - 1])
      case Rejected => Rejected
      case AssertionFails => AssertionFails
  }

  /// ## Quantifiers

  function Copies(r: Regex, n: nat): (rs: seq<Regex>)
    ensures |rs| == n && forall i :: 0 <= i < n ==> rs[i] == r
  {
    seq(n, i => r)
  }

  /** `a b c d` becomes `a(b(cd))`. */
  function CatAll(rs: seq<Regex>): Regex
    requires rs != []
  {
    if |rs| == 1 then rs[0] else Cat(rs[0], CatAll(rs[1..]))
  }

  lemma {:induction false} CatAllMergesLast(rs: seq<Regex>)
    requires |rs| >= 2
    ensures CatAll(rs[..|rs| - 2] + [Cat(rs[|rs| - 2], rs[|rs| - 1])]) == CatAll(rs)
    decreases |rs|
  {
    var n := |rs|;
    var merged := rs[..n - 2] + [Cat(rs[n - 2], rs[n - 1])];
    if n == 2 {
      assert rs[1..] == [rs[1]];
    } else {
      CatAllMergesLast(rs[1..]);
      assert merged[1..] == rs[1..][..n - 3] + [Cat(rs[1..][n - 3], rs[1..][n - 2])];
    }
  }

  function QuantifiedOperands(r: Regex, n: nat, m: nat): (rs: seq<Regex>)
    requires n <= m && m != 0
    ensures rs != []
  {
    if n == 0 then
      if m == INFINITY_QUANTIFIER then [Many(ZeroOrMore, r)] else Copies(Many(ZeroOrOne, r), m)
    else if m == INFINITY_QUANTIFIER then
      Copies(r, n - 1) + [Many(OneOrMore, r)]
    else
      Copies(r, n) + Copies(Many(ZeroOrOne, r), m - n)
  }

  /** `r{n,m}`; zero repetitions are not supported. */
  function EvalQuantifier(operands: seq<Regex>, n: nat, m: nat): Result<seq<Regex>>
    requires n <= m
  {
    if operands == [] then AssertionFails
    else if m == 0 then Rejected
    else
      var top := |operands| - 1;
      Ok(operands[..top] + [CatAll(QuantifiedOperands(operands[top], n, m))])
  }

  /// ## Tokens

  /** The guard stops most numbers above 2^32 - 1; the ones it lets through wrap around. */
  function ParseDigits(input: Text, r: nat): (result: Option<(nat, Text)>)
    requires r < WORD
    ensures result.Some? ==> result.value.0 < WORD && |result.value.1| <= |input|
  {
    if input == [] || !IsDigit(input[0]) then Some((r, input))
    else if r >= 429496729 && input[0] > '5' as int then None
    else ParseDigits(input[1..], (r * 10 + (input[0] - '0' as int)) % WORD)
  }

  function ParseUnsigned(input: Text): (result: Option<(nat, Text)>)
    ensures result.Some? ==> result.value.0 < WORD && |result.value.1| < |input|
  {
    if input == [] || !IsDigit(input[0]) then None else ParseDigits(input[1..], input[0] - '0' as int)
  }

  function EscapedCharacter(c: CodePoint): Option<CodePoint> {
    if c in ['^' as int, '$' as int, '|' as int, '(' as int, ')' as int, '?' as int, '*' as int, '+' as int,
             '.' as int, '[' as int, ']' as int, '{' as int, '}' as int, '\\' as int] then Some(c)
    else if c == 'f' as int then Some(0x0C)
    else if c == 'n' as int then Some(0x0A)
    else if c == 'r' as int then Some(0x0D)
    else if c == 't' as int then Some(0x09)
    else if c == 'v' as int then Some(0x0B)
    else None
  }

  /** Reads the rest of a class, given what has been read of it. In step 1 the last item is a
      single character that a `-` may extend; in step 2 that `-` has been read. */
  function ParseClass(input: Text, isBegin: bool, negate: bool, step: nat, items: seq<Interval>)
    : (result: Option<(Sym, Text)>)
    requires step <= 2 && (step > 0 ==> items != [])
    ensures result.Some? ==> |result.value.1| < |input|
    decreases |input|, 0
  {
    if input == [] then None
    else if isBegin && input[0] == '^' as int then ParseClass(input[1..], false, true, step, items)
    else if input[0] == ']' as int then
      if items == [] then None
      else Some((Class(negate, if step == 2 then items + [Interval('-' as int, '-' as int)] else items), input[1..]))
    else if input[0] == '\\' as int then
      if |input| == 1 then None
      else
        var c := if input[1] == 'b' as int then Some(0x08) else EscapedCharacter(input[1]);
        if c == None then None else ParseItem(input[2..], c.value, negate, step, items)
    else
      ParseItem(input[1..], input[0], negate, step, items)
  }

  function ParseItem(rest: Text, c: CodePoint, negate: bool, step: nat, items: seq<Interval>)
    : (result: Option<(Sym, Text)>)
    requires step <= 2 && (step > 0 ==> items != [])
    ensures result.Some? ==> |result.value.1| < |rest|
    decreases |rest|, 1
  {
    if step == 1 && c == '-' as int then
      ParseClass(rest, false, negate, 2, items)
    else if step < 2 then
      ParseClass(rest, false, negate, 1, items + [Interval(c, c)])
    else
      var last := |items| - 1;
      ParseClass(rest, false, negate, 0, items[last := Interval(items[last].first, c)])
  }

  function ParseRange(input: Text): (result: Option<(Sym, Text)>)
    ensures result.Some? ==> |result.value.1| < |input|
  {
    ParseClass(input, true, false, 0, [])
  }

  /** The bounds after `{`, up to but without the closing brace. */
  function ParseBounds(input: Text): (result: Option<(nat, nat, Text)>)
    ensures result.Some? ==> result.value.0 <= result.value.1 && |result.value.2| < |input|
  {
    match ParseUnsigned(input)
    case None => None
    case Some((n, rest)) =>
      if rest == [] || rest[0] != ',' as int then Some((n, n, rest))
      else if |rest| > 1 && rest[1] == '}' as int then
        Some((n, INFINITY_QUANTIFIER, rest[1..]))
      else
        match ParseUnsigned(rest[1..])
        case None => None
        case Some((m, rest')) => if m < n then None else Some((n, m, rest'))
  }

  /// ## The parser

  function ImplicitConcatenation(y: Yard): Result<Yard> {
    if y.atoms == [] then AssertionFails
    else
      var top := |y.atoms| - 1;
      Ok(y.(operators := if y.atoms[top] != 0 then y.operators + [Concatenation] else y.operators,
            atoms := y.atoms[top := y.atoms[top] + 1]))
  }

  function PushSymbol(y: Yard, sym: Sym): Result<Yard> {
    ImplicitConcatenation(y.(operands := y.operands + [Symbol(sym)]))
  }

  function Postfixing(y: Yard, op: Postfix): Result<Yard> {
    match Eval(y.operands, Postfixed(op))
    case Ok(os) => Ok(y.(operands := os))
    case Rejected => Rejected
    case AssertionFails => AssertionFails
  }

  function Alternating(y: Yard): Result<Yard> {
    match Reduce(AtAlternation, y.operands, y.operators)
    case Ok((os, ops)) =>
      if y.atoms == [] then AssertionFails
      else Ok(y.(operands := os, operators := ops + [Alternation], atoms := y.atoms[|y.atoms| - 1 := 0]))
    case Rejected => Rejected
    case AssertionFails => AssertionFails
  }

  function Opening(y: Yard): Yard {
    y.(operators := y.operators + [LeftParenthesis], atoms := y.atoms + [0])
  }

  function Closing(y: Yard): Result<Yard> {
    match Reduce(AtParenthesis, y.operands, y.operators)
    case Ok((os, ops)) => CloseGroup(y, os, ops)
    case Rejected => Rejected
    case AssertionFails => AssertionFails
  }

  function CloseGroup(y: Yard, os: seq<Regex>, ops: seq<Operator>): Result<Yard> {
    if ops == [] then Rejected
    else if y.atoms == [] then AssertionFails
    else ImplicitConcatenation(y.(operands := os, operators := ops[..|ops| - 1], atoms := y.atoms[..|y.atoms| - 1]))
  }

  /** One turn of the parser's loop: the yard after the next token, and the text behind it. */
  function Turn(y: Yard, input: Text): (result: Result<(Yard, Text)>)
    requires input != []
    ensures result.Ok? ==> |result.value.1| < |input|
  {
    var c, rest := input[0], input[1..];
    if c == '^' as int then Ok((y.(anchorBegin := true), rest))
    else if c == '$' as int then Ok((y.(anchorEnd := true), rest))
    else if c == '|' as int then With(Alternating(y), rest)
    else if c == '(' as int then Ok((Opening(y), rest))
    else if c == ')' as int then With(Closing(y), rest)
    else if c == '?' as int then With(Postfixing(y, ZeroOrOne), rest)
    else if c == '*' as int then With(Postfixing(y, ZeroOrMore), rest)
    else if c == '+' as int then With(Postfixing(y, OneOrMore), rest)
    else if c == '{' as int then
      match ParseBounds(rest)
      case None => Rejected
      case Some((n, m, rest')) => Bounding(y, n, m, rest')
    else if c == '.' as int then With(PushSymbol(y, Any), rest)
    else if c == '[' as int then
      match ParseRange(rest)
      case None => Rejected
      case Some((sym, rest')) => With(PushSymbol(y, sym), rest')
    else if c == '\\' as int then
      if rest == [] || EscapedCharacter(rest[0]) == None then Rejected
      else With(PushSymbol(y, Exact(EscapedCharacter(rest[0]).value)), rest[1..])
    else With(PushSymbol(y, Exact(c)), rest)
  }

  function With(y: Result<Yard>, rest: Text): (result: Result<(Yard, Text)>)
    ensures result.Ok? ==> result.value.1 == rest
  {
    match y
    case Ok(y) => Ok((y, rest))
    case Rejected => Rejected
    case AssertionFails => AssertionFails
  }

  function Bounding(y: Yard, n: nat, m: nat, rest: Text): (result: Result<(Yard, Text)>)
    requires n <= m
    ensures result.Ok? ==> |result.value.1| <= |rest|
  {
    match EvalQuantifier(y.operands, n, m)
    case Ok(os) => if rest == [] || rest[0] != '}' as int then Rejected else Ok((y.(operands := os), rest[1..]))
    case Rejected => Rejected
    case AssertionFails => AssertionFails
  }

  function Finish(y: Yard): Result<Compiled> {
    match Reduce(AtBottom, y.operands, y.operators)
    case Ok((os, _)) => if |os| == 1 then Ok(Compiled(os[0], y.anchorBegin, y.anchorEnd)) else Rejected
    case Rejected => Rejected
    case AssertionFails => AssertionFails
  }

  function Run(y: Yard, input: Text): Result<Compiled>
    decreases |input|
  {
    if input == [] then Finish(y)
    else
      match Turn(y, input)
      case Ok((y', rest)) => Run(y', rest)
      case Rejected => Rejected
      case AssertionFails => AssertionFails
  }

  const EMPTY_YARD := Yard([], [], [0], false, false)

  /** What the constructor of `GenericRegex` makes of a pattern. */
  function Compile(source: Text): Result<Compiled> {
    Run(EMPTY_YARD, source)
  }
}
