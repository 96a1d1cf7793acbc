/** The parser builds the expression of every well-formed pattern. */
module RegexParsing {
  import opened Characters
  import opened RegexLanguage
  import opened RegexYard
  import opened RegexPattern
  import opened Wrappers

  /// ## Numbers

  lemma {:induction false} DigitsGrow(digits: Text, r: nat)
    requires forall i :: 0 <= i < |digits| ==> IsDigit(digits[i])
    ensures r <= DigitsValue(digits, r)
  {
    if digits != [] {
      DigitsGrow(digits[1..], r * 10 + (digits[0] - '0' as int));
    }
  }

  /** The overflow guard never rejects a number that fits, and the arithmetic does not wrap. */
  lemma {:induction false} ParseDigitsExact(digits: Text, r: nat, rest: Text)
    requires r < WORD && (forall i :: 0 <= i < |digits| ==> IsDigit(digits[i]))
    requires DigitsValue(digits, r) < WORD
    requires rest != [] ==> !IsDigit(rest[0])
    ensures ParseDigits(digits + rest, r) == Some((DigitsValue(digits, r), rest))
  {
    if digits == [] {
      assert digits + rest == rest;
    } else {
      var r' := r * 10 + (digits[0] - '0' as int);
      DigitsGrow(digits[1..], r');
      assert (digits + rest)[1..] == digits[1..] + rest;
      ParseDigitsExact(digits[1..], r', rest);
    }
  }

  lemma ParseNumber(digits: Text, rest: Text)
    requires IsNumber(digits) && (rest != [] ==> !IsDigit(rest[0]))
    ensures ParseUnsigned(digits + rest) == Some((DigitsValue(digits, 0), rest))
  {
    assert (digits + rest)[1..] == digits[1..] + rest;
    ParseDigitsExact(digits[1..], digits[0] - '0' as int, rest);
  }

  /** Where a number does not fit, the guard misses the ones whose last digit is at most 5. */
  lemma {:induction false} ParseDigitsModulo(digits: Text, r: nat, v: nat)
    requires r < WORD && v % WORD == r
    requires forall i :: 0 <= i < |digits| ==> IsDigit(digits[i])
    ensures ParseDigits(digits, r).Some? ==>
              ParseDigits(digits, r).value == (DigitsValue(digits, v) % WORD, [])
  {
    if digits != [] {
      var d := digits[0] - '0' as int;
      WrapStep(v, r, d);
      ParseDigitsModulo(digits[1..], (r * 10 + d) % WORD, v * 10 + d);
    }
  }

  lemma WrapStep(v: nat, r: nat, d: nat)
    requires v % WORD == r
    ensures (v * 10 + d) % WORD == (r * 10 + d) % WORD
  {
    var q := v / WORD;
    assert v * 10 + d == (r * 10 + d) + (q * 10) * WORD;
  }

  /** `ParseUnsigned` returns the written number iff that number fits in 32 bits. */
  lemma ParseUnsignedExactIff(digits: Text)
    requires digits != [] && forall i :: 0 <= i < |digits| ==> IsDigit(digits[i])
    ensures ParseUnsigned(digits) == Some((DigitsValue(digits, 0), [])) <==> DigitsValue(digits, 0) < WORD
  {
    if DigitsValue(digits, 0) < WORD {
      ParseUnsignedExact(digits);
    } else {
      ParseUnsignedModulo(digits);
    }
  }

  lemma {:induction false} ParseUnsignedExact(digits: Text)
    requires digits != [] && forall i :: 0 <= i < |digits| ==> IsDigit(digits[i])
    requires DigitsValue(digits, 0) < WORD
    ensures ParseUnsigned(digits) == Some((DigitsValue(digits, 0), []))
  {
    assert digits[1..] + [] == digits[1..];
    ParseDigitsExact(digits[1..], digits[0] - '0' as int, []);
  }

  lemma ParseUnsignedModulo(digits: Text)
    requires digits != [] && forall i :: 0 <= i < |digits| ==> IsDigit(digits[i])
    ensures ParseUnsigned(digits).Some? ==> ParseUnsigned(digits).value.0 == DigitsValue(digits, 0) % WORD
  {
    var d := digits[0] - '0' as int;
    ParseDigitsModulo(digits[1..], d, d);
  }

  lemma DigitStep(d: nat, rest: Text, r: nat)
    requires d <= 9 && r < WORD && !(r >= 429496729 && d > 5)
    ensures ParseDigits(['0' as int + d] + rest, r) == ParseDigits(rest, (r * 10 + d) % WORD)
    ensures DigitsValue(['0' as int + d] + rest, r) == DigitsValue(rest, r * 10 + d)
  {
    assert (['0' as int + d] + rest)[1..] == rest;
  }

  function WrappingTail(): Text {
    ['0' as int + 7] + (['0' as int + 3] + (['0' as int + 0] + (['0' as int + 0] + [])))
  }

  function WrappingMiddle(): Text {
    ['0' as int + 4] + (['0' as int + 9] + (['0' as int + 6] + WrappingTail()))
  }

  function WrappingHead(): Text {
    ['0' as int + 2] + (['0' as int + 9] + WrappingMiddle())
  }

  lemma WrappingTailIsFour()
    ensures ParseDigits(WrappingTail(), 429496) == Some((4, []))
    ensures DigitsValue(WrappingTail(), 429496) == 4294967300
  {
    DigitStep(0, [], 429496730);
    DigitStep(0, ['0' as int + 0] + [], 42949673);
    DigitStep(3, ['0' as int + 0] + (['0' as int + 0] + []), 4294967);
    DigitStep(7, ['0' as int + 3] + (['0' as int + 0] + (['0' as int + 0] + [])), 429496);
  }

  lemma WrappingMiddleIsFour()
    ensures ParseDigits(WrappingMiddle(), 429) == Some((4, []))
    ensures DigitsValue(WrappingMiddle(), 429) == 4294967300
  {
    var t := WrappingTail();
    WrappingTailIsFour();
    DigitStep(6, t, 42949);
    DigitStep(9, ['0' as int + 6] + t, 4294);
    DigitStep(4, ['0' as int + 9] + (['0' as int + 6] + t), 429);
  }

  lemma WrappingHeadIsFour()
    ensures ParseDigits(WrappingHead(), 4) == Some((4, []))
    ensures DigitsValue(WrappingHead(), 4) == 4294967300
  {
    var t := WrappingMiddle();
    WrappingMiddleIsFour();
    DigitStep(9, t, 42);
    DigitStep(2, ['0' as int + 9] + t, 4);
  }

  /** 4294967300 is read as 4. */
  lemma ParseUnsignedWraps()
    ensures var digits := ['4' as int] + WrappingHead();
            DigitsValue(digits, 0) == 4294967300 && ParseUnsigned(digits) == Some((4, []))
  {
    WrappingHeadIsFour();
    assert (['4' as int] + WrappingHead())[1..] == WrappingHead();
  }

  /** The guard finds a digit above 5 behind a number that is, in 32 bits, at least 429496729. */
  predicate Guarded(digits: Text, v: nat, k: nat)
    requires k < |digits|
  {
    DigitsValue(digits[..k], v) % 0x1_0000_0000 >= 429496729 && digits[k] > '5' as int
  }

  lemma {:induction false} ParseDigitsRefusedIff(digits: Text, r: nat, v: nat)
    requires r < WORD && v % WORD == r && forall i :: 0 <= i < |digits| ==> IsDigit(digits[i])
    ensures ParseDigits(digits, r).None? <==> exists k :: 0 <= k < |digits| && Guarded(digits, v, k)
  {
    if digits != [] {
      var d := digits[0] - '0' as int;
      var more, w := digits[1..], v * 10 + d;
      WrapStep(v, r, d);
      ParseDigitsRefusedIff(more, (r * 10 + d) % WORD, w);
      assert Guarded(digits, v, 0) <==> r >= 429496729 && digits[0] > '5' as int;
      forall k | 0 <= k < |more|
        ensures Guarded(more, w, k) <==> Guarded(digits, v, k + 1)
      {
        assert digits[..k + 1][1..] == more[..k];
      }
      if k :| 0 <= k < |digits| && Guarded(digits, v, k) && k > 0 {
        assert Guarded(more, w, k - 1);
      }
    }
  }

  /** A number is refused exactly if somewhere behind its first digit the guard finds this. */
  lemma ParseUnsignedRefusedIff(digits: Text)
    requires digits != [] && forall i :: 0 <= i < |digits| ==> IsDigit(digits[i])
    ensures ParseUnsigned(digits).None? <==> exists k :: 0 < k < |digits| && Guarded(digits, 0, k)
  {
    var d := digits[0] - '0' as int;
    var more := digits[1..];
    ParseDigitsRefusedIff(more, d, d);
    forall k | 0 <= k < |more|
      ensures Guarded(more, d, k) <==> Guarded(digits, 0, k + 1)
    {
      assert digits[..k + 1][1..] == more[..k];
    }
    if k :| 0 < k < |digits| && Guarded(digits, 0, k) {
      assert Guarded(more, d, k - 1);
    }
  }

  lemma ParseBoundsOk(bounds: Bounds, rest: Text)
    requires BoundsOk(bounds) && rest != [] && rest[0] == '}' as int
    ensures ParseBounds(RenderBounds(bounds) + rest) == Some((Lower(bounds), Upper(bounds), rest))
  {
    match bounds
    case Exactly(n) => ParseNumber(n, rest);
    case AtLeast(n) =>
      assert n + [',' as int] + rest == n + ([',' as int] + rest);
      ParseNumber(n, [',' as int] + rest);
    case Between(n, m) =>
      assert n + [',' as int] + m + rest == n + ([',' as int] + (m + rest));
      ParseNumber(n, [',' as int] + (m + rest));
      ParseNumber(m, rest);
      assert ([',' as int] + (m + rest))[1..] == m + rest;
  }

  /// ## Classes

  function StepOf(afterSingle: bool): nat {
    if afterSingle then 1 else 0
  }

  lemma ParseClassChar(ch: ClassChar, rest: Text, isBegin: bool, negate: bool, step: nat, items: seq<Interval>)
    requires CharValue(ch).Some? && (isBegin ==> ch != Raw('^' as int))
    requires step <= 2 && (step > 0 ==> items != [])
    ensures ParseClass(RenderChar(ch) + rest, isBegin, negate, step, items)
            == ParseItem(rest, CharValue(ch).value, negate, step, items)
  {
    assert (RenderChar(ch) + rest)[|RenderChar(ch)|..] == rest;
  }

  lemma ParseClassItem(item: Item, rest: Text, isBegin: bool, negate: bool, afterSingle: bool, items: seq<Interval>)
    requires ItemsOk([item], afterSingle) && (afterSingle ==> items != [])
    requires isBegin ==> FirstChar(item) != Raw('^' as int)
    ensures ParseClass(RenderItem(item) + rest, isBegin, negate, StepOf(afterSingle), items)
            == ParseClass(rest, false, negate, StepOf(item.Single?), items + [ItemInterval(item)])
  {
    match item
    case Single(ch) =>
      ParseClassChar(ch, rest, isBegin, negate, StepOf(afterSingle), items);
      NoDash(ch);
    case Span(from, to) =>
      var dash := ['-' as int];
      NoDash(from);
      var first := CharValue(from).value;
      assert RenderItem(item) + rest == RenderChar(from) + (dash + (RenderChar(to) + rest));
      ParseClassChar(from, dash + (RenderChar(to) + rest), isBegin, negate, StepOf(afterSingle), items);
      ParseClassChar(Raw('-' as int), RenderChar(to) + rest, false, negate, 1, items + [Interval(first, first)]);
      ParseClassChar(to, rest, false, negate, 2, items + [Interval(first, first)]);
      assert (items + [Interval(first, first)])[|items| := ItemInterval(item)] == items + [ItemInterval(item)];
  }

  /** There is no escape for a dash. */
  lemma NoDash(ch: ClassChar)
    ensures CharValue(ch) == Some('-' as int) ==> ch == Raw('-' as int)
  {
  }

  lemma IntervalsMore(items: seq<Item>, afterSingle: bool, acc: seq<Interval>)
    requires items != [] && ItemsOk(items, afterSingle)
    ensures acc + [ItemInterval(items[0])] + Intervals(items[1..], items[0].Single?)
            == acc + Intervals(items, afterSingle)
  {
  }

  lemma {:induction false} ParseClassItems(items: seq<Item>, rest: Text, isBegin: bool, negate: bool,
                                           afterSingle: bool, acc: seq<Interval>)
    requires items != [] && ItemsOk(items, afterSingle) && (afterSingle ==> acc != [])
    requires isBegin ==> FirstChar(items[0]) != Raw('^' as int)
    ensures ParseClass(RenderItems(items) + rest, isBegin, negate, StepOf(afterSingle), acc)
            == ParseClass(rest, false, negate, StepOf(items[|items| - 1].Single?), acc + Intervals(items, afterSingle))
    decreases |items|
  {
    var more := items[1..];
    var acc' := acc + [ItemInterval(items[0])];
    assert RenderItems(items) + rest == RenderItem(items[0]) + (RenderItems(more) + rest);
    assert ItemsOk([items[0]], afterSingle) by { assert [items[0]][1..] == []; }
    ParseClassItem(items[0], RenderItems(more) + rest, isBegin, negate, afterSingle, acc);
    IntervalsMore(items, afterSingle, acc);
    if more == [] {
      assert RenderItems(more) + rest == rest;
      assert acc' + [] == acc';
    } else {
      ParseClassItems(more, rest, false, negate, items[0].Single?, acc');
    }
  }

  lemma ParseClassEnd(rest: Text, negated: bool, afterSingle: bool, dash: bool, items: seq<Interval>)
    requires items != [] && (dash ==> afterSingle)
    ensures var tail := (if dash then ['-' as int] else []) + ([']' as int] + rest);
            ParseClass(tail, false, negated, StepOf(afterSingle), items)
            == Some((Class(negated, items + if dash then [Interval('-' as int, '-' as int)] else []), rest))
  {
    var close := [']' as int] + rest;
    assert close[1..] == rest;
    if dash {
      ParseClassChar(Raw('-' as int), close, false, negated, 1, items);
    } else {
      assert [] + close == close && items + [] == items;
    }
  }

  lemma ParseClassBegin(body: Text, negated: bool)
    requires body != []
    ensures ParseRange((if negated then ['^' as int] else []) + body) == ParseClass(body, !negated, negated, 0, [])
  {
    if negated {
      assert (['^' as int] + body)[1..] == body;
    } else {
      assert [] + body == body;
    }
  }

  lemma BracketsText(token: Token, rest: Text)
    requires token.Brackets?
    ensures RenderToken(token)[1..] + rest
            == (if token.negated then ['^' as int] else [])
               + (RenderItems(token.items)
                  + ((if token.trailingDash then ['-' as int] else []) + ([']' as int] + rest)))
  {
    var caret: Text := if token.negated then ['^' as int] else [];
    var dash: Text := if token.trailingDash then ['-' as int] else [];
    FourPieces(['[' as int], caret, RenderItems(token.items), dash, [']' as int], rest);
  }

  lemma FourPieces(open: Text, a: Text, b: Text, c: Text, d: Text, rest: Text)
    requires |open| == 1
    ensures (open + a + b + c + d)[1..] + rest == a + (b + (c + (d + rest)))
  {
    assert open + a + b + c + d == open + (a + b + c + d);
    assert (open + (a + b + c + d))[1..] == a + b + c + d;
    assert a + b + c + d + rest == a + (b + (c + (d + rest)));
  }

  lemma ParseBrackets(token: Token, rest: Text)
    requires token.Brackets? && TokenOk(token)
    ensures ParseRange(RenderToken(token)[1..] + rest) == Some((TokenSym(token), rest))
  {
    var Brackets(negated, items, dash) := token;
    var tail := (if dash then ['-' as int] else []) + ([']' as int] + rest);
    BracketsText(token, rest);
    ParseClassBegin(RenderItems(items) + tail, negated);
    ParseClassItems(items, tail, !negated, negated, false, []);
    assert [] + Intervals(items, false) == Intervals(items, false);
    ParseClassEnd(rest, negated, items[|items| - 1].Single?, dash, Intervals(items, false));
  }

  /// ## Reducing

  function Concatenations(n: nat): (ops: seq<Operator>)
    ensures |ops| == n && forall i :: 0 <= i < n ==> ops[i] == Concatenation
  {
    seq(n, i => Concatenation)
  }

  /** Pending concatenations associate to the right. */
  lemma {:induction false} ReduceConcatenations(barrier: Barrier, os: seq<Regex>, rs: seq<Regex>, ops: seq<Operator>)
    requires rs != []
    ensures Reduce(barrier, os + rs, ops + Concatenations(|rs| - 1)) == Reduce(barrier, os + [CatAll(rs)], ops)
    decreases |rs|
  {
    var n := |rs|;
    var pending := ops + Concatenations(n - 1);
    if n == 1 {
      assert pending == ops && rs == [CatAll(rs)];
    } else {
      var merged := rs[..n - 2] + [Cat(rs[n - 2], rs[n - 1])];
      assert pending[|pending| - 1] == Concatenation;
      assert pending[..|pending| - 1] == ops + Concatenations(n - 2);
      assert (os + rs)[..|os + rs| - 2] + [Cat((os + rs)[|os + rs| - 2], (os + rs)[|os + rs| - 1])] == os + merged;
      CatAllMergesLast(rs);
      ReduceConcatenations(barrier, os, merged, ops);
    }
  }

  function Factors(p: Pattern): (rs: seq<Regex>)
    requires WellFormed(p) && !p.Or?
    ensures rs != [] && CatAll(rs) == Expression(p)
  {
    if p.Then? then
      assert ([Expression(p.p)] + Factors(p.q))[1..] == Factors(p.q);
      [Expression(p.p)] + Factors(p.q)
    else [Expression(p)]
  }

  function PendingOperands(p: Pattern): (rs: seq<Regex>)
    requires WellFormed(p)
  {
    if p.Or? then [Expression(p.p)] + PendingOperands(p.q) else Factors(p)
  }

  function PendingOperators(p: Pattern): seq<Operator>
    requires WellFormed(p)
  {
    if p.Or? then [Alternation] + PendingOperators(p.q) else Concatenations(|Factors(p)| - 1)
  }

  function LastAtoms(p: Pattern): (n: nat)
    requires WellFormed(p)
    ensures n > 0
  {
    if p.Or? then LastAtoms(p.q) else |Factors(p)|
  }

  lemma ReduceAlternation(barrier: Barrier, os: seq<Regex>, p: Regex, q: Regex, ops: seq<Operator>)
    requires !barrier.AtAlternation?
    ensures Reduce(barrier, os + [p] + [q], ops + [Alternation]) == Reduce(barrier, os + [Alt(p, q)], ops)
  {
    var both, pending := os + [p] + [q], ops + [Alternation];
    assert both[..|both| - 2] == os;
    assert pending[..|pending| - 1] == ops;
  }

  lemma {:induction false} ReducePending(barrier: Barrier, os: seq<Regex>, ops: seq<Operator>, p: Pattern)
    requires WellFormed(p) && !barrier.AtAlternation?
    ensures Reduce(barrier, os + PendingOperands(p), ops + PendingOperators(p))
            == Reduce(barrier, os + [Expression(p)], ops)
    decreases p
  {
    if p.Or? {
      var os', ops' := os + [Expression(p.p)], ops + [Alternation];
      ReducePending(barrier, os', ops', p.q);
      assert os + PendingOperands(p) == os' + PendingOperands(p.q);
      assert ops + PendingOperators(p) == ops' + PendingOperators(p.q);
      ReduceAlternation(barrier, os, Expression(p.p), Expression(p.q), ops);
    } else {
      ReduceConcatenations(barrier, os, Factors(p), ops);
    }
  }

  /// ## Running over a pattern

  /** The yard after an operand for `r` has been read. */
  function AfterFactor(y: Yard, r: Regex): Yard
    requires y.atoms != []
  {
    var top := |y.atoms| - 1;
    y.(operands := y.operands + [r],
       operators := if y.atoms[top] != 0 then y.operators + [Concatenation] else y.operators,
       atoms := y.atoms[top := y.atoms[top] + 1])
  }

  function AfterTerm(y: Yard, rs: seq<Regex>): Yard
    requires y.atoms != [] && rs != []
  {
    var top := |y.atoms| - 1;
    y.(operands := y.operands + rs,
       operators := y.operators + Concatenations(if y.atoms[top] != 0 then |rs| else |rs| - 1),
       atoms := y.atoms[top := y.atoms[top] + |rs|])
  }

  function AfterPattern(y: Yard, p: Pattern): Yard
    requires y.atoms != [] && WellFormed(p)
  {
    y.(operands := y.operands + PendingOperands(p),
       operators := y.operators + PendingOperators(p),
       atoms := y.atoms[|y.atoms| - 1 := LastAtoms(p)])
  }

  lemma PushedSymbol(y: Yard, sym: Sym, rest: Text)
    requires y.atoms != []
    ensures With(PushSymbol(y, sym), rest) == Ok((AfterFactor(y, Symbol(sym)), rest))
  {
  }

  lemma TurnPlain(y: Yard, c: CodePoint, rest: Text)
    requires !IsSpecial(c)
    ensures Turn(y, [c] + rest) == With(PushSymbol(y, Exact(c)), rest)
  {
    assert ([c] + rest)[1..] == rest;
  }

  lemma TurnDot(y: Yard, rest: Text)
    ensures Turn(y, ['.' as int] + rest) == With(PushSymbol(y, Any), rest)
  {
    assert (['.' as int] + rest)[1..] == rest;
  }

  /** The parser knows exactly the documented escapes. */
  lemma EscapeIsRead(letter: CodePoint)
    ensures EscapedCharacter(letter) == if letter in ESCAPES then Some(ESCAPES[letter]) else None
  {
  }

  lemma TurnBackslash(y: Yard, letter: CodePoint, rest: Text)
    requires letter in ESCAPES
    ensures Turn(y, ['\\' as int] + ([letter] + rest)) == With(PushSymbol(y, Exact(ESCAPES[letter])), rest)
  {
    EscapeIsRead(letter);
    var tail := [letter] + rest;
    assert (['\\' as int] + tail)[1..] == tail;
    assert tail[1..] == rest;
  }

  lemma TurnBracket(y: Yard, body: Text, sym: Sym, rest: Text)
    requires ParseRange(body) == Some((sym, rest))
    ensures Turn(y, ['[' as int] + body) == With(PushSymbol(y, sym), rest)
  {
    assert (['[' as int] + body)[1..] == body;
  }

  /** The text of a token and of what follows it, split behind its first character. */
  lemma TokenText(token: Token, rest: Text)
    ensures token.Backslash? ==> RenderToken(token) + rest == ['\\' as int] + ([token.letter] + rest)
    ensures token.Brackets? ==> RenderToken(token)[0] == '[' as int
                                && RenderToken(token) + rest == ['[' as int] + (RenderToken(token)[1..] + rest)
  {
    HeadAndTail(RenderToken(token), rest);
    if token.Backslash? {
      assert RenderToken(token)[1..] == [token.letter];
    }
  }

  lemma HeadAndTail(text: Text, rest: Text)
    requires text != []
    ensures text + rest == [text[0]] + (text[1..] + rest)
  {
  }

  lemma TurnToken(y: Yard, token: Token, rest: Text)
    requires y.atoms != [] && TokenOk(token)
    ensures Turn(y, RenderToken(token) + rest) == Ok((AfterFactor(y, Symbol(TokenSym(token))), rest))
  {
    PushedSymbol(y, TokenSym(token), rest);
    TokenText(token, rest);
    if token.Plain? {
      TurnPlain(y, token.c, rest);
    } else if token.Backslash? {
      TurnBackslash(y, token.letter, rest);
    } else if token.Dot? {
      TurnDot(y, rest);
    } else {
      ParseBrackets(token, rest);
      TurnBracket(y, RenderToken(token)[1..] + rest, TokenSym(token), rest);
    }
  }

  lemma TurnPostfix(y: Yard, r: Regex, op: Postfix, rest: Text)
    requires y.atoms != []
    ensures Turn(AfterFactor(y, r), [PostfixSign(op)] + rest) == Ok((AfterFactor(y, Many(op, r)), rest))
  {
    var y' := AfterFactor(y, r);
    var n := |y'.operands|;
    assert y'.operands[..n - 1] == y.operands;
    assert ([PostfixSign(op)] + rest)[1..] == rest;
  }

  lemma TurnBounds(y: Yard, r: Regex, bounds: Bounds, rest: Text)
    requires y.atoms != [] && BoundsOk(bounds)
    ensures Turn(AfterFactor(y, r), ['{' as int] + (RenderBounds(bounds) + (['}' as int] + rest)))
            == Ok((AfterFactor(y, CatAll(QuantifiedOperands(r, Lower(bounds), Upper(bounds)))), rest))
  {
    var text := RenderBounds(bounds) + (['}' as int] + rest);
    assert (['{' as int] + text)[1..] == text;
    ParseBoundsOk(bounds, ['}' as int] + rest);
    var y' := AfterFactor(y, r);
    assert y'.operands[..|y'.operands| - 1] == y.operands;
    assert (['}' as int] + rest)[1..] == rest;
  }

  lemma ReduceGroup(os: seq<Regex>, ops: seq<Operator>, p: Pattern)
    requires WellFormed(p)
    ensures var open := ops + [LeftParenthesis];
            Reduce(AtParenthesis, os + PendingOperands(p), open + PendingOperators(p))
            == Ok((os + [Expression(p)], open))
  {
    ReducePending(AtParenthesis, os, ops + [LeftParenthesis], p);
  }

  lemma CloseOpened(y: Yard, p: Pattern, os: seq<Regex>)
    requires y.atoms != [] && WellFormed(p)
    ensures CloseGroup(AfterPattern(Opening(y), p), os, y.operators + [LeftParenthesis])
            == ImplicitConcatenation(y.(operands := os))
  {
    var open := y.operators + [LeftParenthesis];
    assert open[..|open| - 1] == y.operators;
    assert AfterPattern(Opening(y), p).atoms[..|y.atoms|] == y.atoms;
  }

  lemma ReduceOpened(y: Yard, p: Pattern)
    requires y.atoms != [] && WellFormed(p)
    ensures var z := AfterPattern(Opening(y), p);
            Reduce(AtParenthesis, z.operands, z.operators)
            == Ok((y.operands + [Expression(p)], y.operators + [LeftParenthesis]))
  {
    ReduceGroup(y.operands, y.operators, p);
  }

  lemma ConcatenatedFactor(y: Yard, r: Regex)
    requires y.atoms != []
    ensures ImplicitConcatenation(y.(operands := y.operands + [r])) == Ok(AfterFactor(y, r))
  {
  }

  lemma ClosingPattern(y: Yard, p: Pattern)
    requires y.atoms != [] && WellFormed(p)
    ensures Closing(AfterPattern(Opening(y), p)) == Ok(AfterFactor(y, Expression(p)))
  {
    ReduceOpened(y, p);
    CloseOpened(y, p, y.operands + [Expression(p)]);
    ConcatenatedFactor(y, Expression(p));
  }

  lemma TurnClose(y: Yard, p: Pattern, rest: Text)
    requires y.atoms != [] && WellFormed(p)
    ensures Turn(AfterPattern(Opening(y), p), [')' as int] + rest) == Ok((AfterFactor(y, Expression(p)), rest))
  {
    ClosingPattern(y, p);
    assert ([')' as int] + rest)[1..] == rest;
  }

  lemma ReduceStops(barrier: Barrier, os: seq<Regex>, ops: seq<Operator>)
    requires ops != [] ==> Stops(barrier, ops[|ops| - 1])
    ensures Reduce(barrier, os, ops) == Ok((os, ops))
  {
  }

  lemma AtomsBack(atoms: seq<nat>, n: nat)
    requires atoms != [] && atoms[|atoms| - 1] == 0
    ensures atoms[|atoms| - 1 := n][|atoms| - 1 := 0] == atoms
  {
  }

  /** The yard behind an alternative and its bar. */
  function Barred(y: Yard, r: Regex): Yard {
    y.(operands := y.operands + [r], operators := y.operators + [Alternation])
  }

  lemma BarReduces(os: seq<Regex>, ops: seq<Operator>, p: Pattern)
    requires WellFormed(p) && !p.Or? && (ops != [] ==> Stops(AtAlternation, ops[|ops| - 1]))
    ensures Reduce(AtAlternation, os + PendingOperands(p), ops + PendingOperators(p))
            == Ok((os + [Expression(p)], ops))
  {
    ReduceConcatenations(AtAlternation, os, Factors(p), ops);
    ReduceStops(AtAlternation, os + [Expression(p)], ops);
  }

  lemma BarAlternates(y: Yard, p: Pattern)
    requires y.atoms != [] && y.atoms[|y.atoms| - 1] == 0 && WellFormed(p) && !p.Or?
    requires y.operators != [] ==> Stops(AtAlternation, y.operators[|y.operators| - 1])
    ensures Alternating(AfterPattern(y, p)) == Ok(Barred(y, Expression(p)))
  {
    BarReduces(y.operands, y.operators, p);
    AlternatingReduced(AfterPattern(y, p), y.operands + [Expression(p)], y.operators);
    AtomsBack(y.atoms, LastAtoms(p));
  }

  lemma AlternatingReduced(y: Yard, os: seq<Regex>, ops: seq<Operator>)
    requires y.atoms != [] && Reduce(AtAlternation, y.operands, y.operators) == Ok((os, ops))
    ensures Alternating(y)
            == Ok(y.(operands := os, operators := ops + [Alternation], atoms := y.atoms[|y.atoms| - 1 := 0]))
  {
  }

  lemma TurnBar(y: Yard, p: Pattern, rest: Text)
    requires y.atoms != [] && y.atoms[|y.atoms| - 1] == 0 && WellFormed(p) && !p.Or?
    requires y.operators != [] ==> Stops(AtAlternation, y.operators[|y.operators| - 1])
    ensures Turn(AfterPattern(y, p), ['|' as int] + rest) == Ok((Barred(y, Expression(p)), rest))
  {
    BarAlternates(y, p);
    assert (['|' as int] + rest)[1..] == rest;
  }

  lemma RunTurn(y: Yard, text: Text, y': Yard, rest: Text)
    requires text != [] && Turn(y, text) == Ok((y', rest))
    ensures Run(y, text) == Run(y', rest)
  {
  }

  lemma AfterTermMore(y: Yard, r: Regex, rs: seq<Regex>)
    requires y.atoms != [] && rs != []
    ensures AfterTerm(AfterFactor(y, r), rs) == AfterTerm(y, [r] + rs)
  {
    var y' := AfterFactor(y, r);
    assert y'.operands + rs == y.operands + ([r] + rs);
    assert y'.operators + Concatenations(|rs|) == AfterTerm(y, [r] + rs).operators;
  }

  lemma AfterTermOne(y: Yard, r: Regex)
    requires y.atoms != []
    ensures AfterTerm(y, [r]) == AfterFactor(y, r)
  {
    assert AfterTerm(y, [r]).operators == AfterFactor(y, r).operators;
  }

  lemma BarredReady(y: Yard, r: Regex)
    ensures Barred(y, r).atoms == y.atoms
    ensures var operators := Barred(y, r).operators;
            operators != [] && Stops(AtAlternation, operators[|operators| - 1])
  {
  }

  lemma AfterPatternMore(y: Yard, p: Pattern)
    requires y.atoms != [] && WellFormed(p) && p.Or?
    ensures AfterPattern(Barred(y, Expression(p.p)), p.q) == AfterPattern(y, p)
  {
    assert y.operands + [Expression(p.p)] + PendingOperands(p.q) == y.operands + PendingOperands(p);
    assert y.operators + [Alternation] + PendingOperators(p.q) == y.operators + PendingOperators(p);
  }

  lemma {:induction false} RunFactor(y: Yard, p: Pattern, rest: Text)
    requires y.atoms != [] && WellFormed(p) && IsFactor(p)
    ensures Run(y, Render(p) + rest) == Run(AfterFactor(y, Expression(p)), rest)
    decreases p, 0
  {
    match p
    case Leaf(token) =>
      TurnToken(y, token, rest);
      RunTurn(y, Render(p) + rest, AfterFactor(y, Expression(p)), rest);
    case Group(q) =>
      RunGroup(y, q, rest);
    case Quantified(q, op) =>
      var text := [PostfixSign(op)] + rest;
      assert Render(p) + rest == Render(q) + text;
      RunFactor(y, q, text);
      TurnPostfix(y, Expression(q), op, rest);
      RunTurn(AfterFactor(y, Expression(q)), text, AfterFactor(y, Expression(p)), rest);
    case Repeated(q, bounds) =>
      var text := ['{' as int] + (RenderBounds(bounds) + (['}' as int] + rest));
      assert Render(p) + rest == Render(q) + text;
      RunFactor(y, q, text);
      TurnBounds(y, Expression(q), bounds, rest);
      RunTurn(AfterFactor(y, Expression(q)), text, AfterFactor(y, Expression(p)), rest);
  }

  lemma {:induction false} RunGroup(y: Yard, q: Pattern, rest: Text)
    requires y.atoms != [] && WellFormed(q)
    ensures Run(y, Render(Group(q)) + rest) == Run(AfterFactor(y, Expression(q)), rest)
    decreases q, 3
  {
    var close := [')' as int] + rest;
    var text := Render(q) + close;
    assert Render(Group(q)) + rest == ['(' as int] + text;
    assert (['(' as int] + text)[1..] == text;
    RunTurn(y, ['(' as int] + text, Opening(y), text);
    RunPattern(Opening(y), q, close);
    TurnClose(y, q, rest);
    RunTurn(AfterPattern(Opening(y), q), close, AfterFactor(y, Expression(q)), rest);
  }

  lemma {:induction false} RunTerm(y: Yard, p: Pattern, rest: Text)
    requires y.atoms != [] && WellFormed(p) && !p.Or?
    ensures Run(y, Render(p) + rest) == Run(AfterTerm(y, Factors(p)), rest)
    decreases p, 1
  {
    if p.Then? {
      assert Render(p) + rest == Render(p.p) + (Render(p.q) + rest);
      RunFactor(y, p.p, Render(p.q) + rest);
      RunTerm(AfterFactor(y, Expression(p.p)), p.q, rest);
      AfterTermMore(y, Expression(p.p), Factors(p.q));
    } else {
      RunFactor(y, p, rest);
      AfterTermOne(y, Expression(p));
    }
  }

  lemma RunBar(y: Yard, p: Pattern, rest: Text)
    requires y.atoms != [] && y.atoms[|y.atoms| - 1] == 0 && WellFormed(p) && !p.Or?
    requires y.operators != [] ==> Stops(AtAlternation, y.operators[|y.operators| - 1])
    ensures Run(AfterPattern(y, p), ['|' as int] + rest)
            == Run(Barred(y, Expression(p)), rest)
  {
    TurnBar(y, p, rest);
    RunTurn(AfterPattern(y, p), ['|' as int] + rest, Barred(y, Expression(p)), rest);
  }

  lemma OrText(p: Pattern, rest: Text)
    requires p.Or?
    ensures Render(p) + rest == Render(p.p) + (['|' as int] + (Render(p.q) + rest))
  {
  }

  /** The pattern behind a bar. */
  lemma {:induction false} RunAlternatives(y: Yard, p: Pattern, rest: Text)
    requires y.atoms != [] && y.atoms[|y.atoms| - 1] == 0 && WellFormed(p) && p.Or?
    requires y.operators != [] ==> Stops(AtAlternation, y.operators[|y.operators| - 1])
    ensures Run(AfterPattern(y, p.p), ['|' as int] + (Render(p.q) + rest)) == Run(AfterPattern(y, p), rest)
    decreases p, 1
  {
    RunBar(y, p.p, Render(p.q) + rest);
    BarredReady(y, Expression(p.p));
    RunPattern(Barred(y, Expression(p.p)), p.q, rest);
    AfterPatternMore(y, p);
  }

  lemma {:induction false} RunPattern(y: Yard, p: Pattern, rest: Text)
    requires y.atoms != [] && y.atoms[|y.atoms| - 1] == 0 && WellFormed(p)
    requires y.operators != [] ==> Stops(AtAlternation, y.operators[|y.operators| - 1])
    ensures Run(y, Render(p) + rest) == Run(AfterPattern(y, p), rest)
    decreases p, 2
  {
    if p.Or? {
      OrText(p, rest);
      RunPattern(y, p.p, ['|' as int] + (Render(p.q) + rest));
      RunAlternatives(y, p, rest);
    } else {
      RunTerm(y, p, rest);
      AfterTermIsPattern(y, p);
    }
  }

  lemma AfterTermIsPattern(y: Yard, p: Pattern)
    requires y.atoms != [] && y.atoms[|y.atoms| - 1] == 0 && WellFormed(p) && !p.Or?
    ensures AfterTerm(y, Factors(p)) == AfterPattern(y, p)
  {
  }

  /** A whole source text: a pattern, possibly anchored at either end. */
  function RenderSource(begin: bool, p: Pattern, end: bool): Text {
    (if begin then ['^' as int] else []) + Render(p) + (if end then ['$' as int] else [])
  }

  /** The engine compiles a well-formed pattern to its expression and takes note of the anchors. */
  lemma {:induction false} CompilesPattern(begin: bool, p: Pattern, end: bool)
    requires WellFormed(p)
    ensures Compile(RenderSource(begin, p, end)) == Ok(Compiled(Expression(p), begin, end))
  {
    var tail := if end then ['$' as int] else [];
    var y := EMPTY_YARD.(anchorBegin := begin);
    var text := Render(p) + tail;
    if begin {
      assert RenderSource(begin, p, end) == ['^' as int] + text;
      assert (['^' as int] + text)[1..] == text;
    } else {
      assert RenderSource(begin, p, end) == text;
    }
    RunPattern(y, p, tail);
    var y' := AfterPattern(y, p).(anchorEnd := end);
    assert Run(AfterPattern(y, p), tail) == Run(y', []) by {
      if end { assert tail[1..] == []; }
    }
    ReducePending(AtBottom, [], [], p);
    assert y'.operands == [] + PendingOperands(p) && y'.operators == [] + PendingOperators(p);
  }
}
