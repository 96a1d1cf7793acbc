/** End to end: pattern text in, answer about a subject text out. */
module RegexCorrectness {
  import opened RegexLanguage
  import opened RegexYard
  import opened RegexPattern
  import opened RegexMeaning
  import opened RegexParsing
  import opened RegexTermination
  import opened RegexSearch
  import opened RegexEngine
  import opened RegexSearching

  /** No unbounded quantifier of the pattern is applied to an operand that denotes the empty text. */
  ghost predicate LoopsRead(p: Pattern)
    requires WellFormed(p)
  {
    match p
    case Leaf(_) => true
    case Group(q) => LoopsRead(q)
    case Then(q, q') => LoopsRead(q) && LoopsRead(q')
    case Or(q, q') => LoopsRead(q) && LoopsRead(q')
    case Quantified(q, op) => LoopsRead(q) && (op == ZeroOrOne || !Denotes(q, []))
    case Repeated(q, bounds) => LoopsRead(q) && (bounds.AtLeast? ==> !Denotes(q, []))
  }

  lemma {:induction false} CatAllProgress(rs: seq<Regex>)
    requires rs != []
    ensures LoopsProgress(CatAll(rs)) <==> forall i :: 0 <= i < |rs| ==> LoopsProgress(rs[i])
    decreases |rs|
  {
    if |rs| > 1 {
      CatAllProgress(rs[1..]);
      assert forall i :: 1 <= i < |rs| ==> rs[i] == rs[1..][i - 1];
    }
  }

  lemma QuantifiedProgress(r: Regex, n: nat, m: nat)
    requires n <= m && m != 0
    ensures LoopsProgress(CatAll(QuantifiedOperands(r, n, m))) <==>
            LoopsProgress(r) && (m == INFINITY_QUANTIFIER ==> !Nullable(r))
  {
    var rs := QuantifiedOperands(r, n, m);
    CatAllProgress(rs);
    var last := rs[|rs| - 1];
    assert last == if m == INFINITY_QUANTIFIER then Many(if n == 0 then ZeroOrMore else OneOrMore, r)
                   else if n < m then Many(ZeroOrOne, r) else r;
  }

  lemma {:induction false} LoopsReadIff(p: Pattern)
    requires WellFormed(p)
    ensures LoopsRead(p) <==> LoopsProgress(Expression(p))
  {
    match p
    case Leaf(_) =>
    case Group(q) => LoopsReadIff(q);
    case Then(q, q') =>
      LoopsReadIff(q);
      LoopsReadIff(q');
    case Or(q, q') =>
      LoopsReadIff(q);
      LoopsReadIff(q');
    case Quantified(q, op) =>
      LoopsReadIff(q);
      DenotesIffMember(q, []);
      NullableIsEmptyMember(Expression(q));
    case Repeated(q, bounds) =>
      LoopsReadIff(q);
      DenotesIffMember(q, []);
      NullableIsEmptyMember(Expression(q));
      QuantifiedProgress(Expression(q), Lower(bounds), Upper(bounds));
  }

  /** The automaton of a well-formed pattern can be simulated: following splits terminates iff
      every unbounded quantifier has to read something. */
  lemma PatternCycleFreeIff(begin: bool, p: Pattern, end: bool, regex: GenericRegex)
    requires WellFormed(p) && regex.IsCompiled(Compiled(Expression(p), begin, end))
    ensures LoopsRead(p) <==> !exists path :: EmptyCycle(regex.states, path)
  {
    LoopsReadIff(p);
    CycleFreeIff(regex.states, regex.ranges, Expression(p), regex.root);
  }

  /** `Match` accepts exactly the texts that the pattern denotes. */
  method MatchPattern(begin: bool, p: Pattern, end: bool, w: Text) returns (found: bool)
    requires WellFormed(p) && LoopsRead(p)
    ensures found <==> Denotes(p, w)
  {
    CompilesPattern(begin, p, end);
    LoopsReadIff(p);
    DenotesIffMember(p, w);
    var regex := new GenericRegex(RenderSource(begin, p, end));
    var search := new GenericRegexSearch(regex, Compiled(Expression(p), begin, end));
    var ds := new DecodedStream(w);
    found := search.Match(ds);
  }

  /** From `i` to `j`, the subject has a text that the pattern denotes, within the anchors. */
  ghost predicate PatternOccurs(p: Pattern, w: Text, i: nat, j: nat, begin: bool, end: bool)
    requires WellFormed(p)
  {
    i <= j <= |w| && (begin ==> i == 0) && (end ==> j == |w|) && Denotes(p, w[i..j])
  }

  ghost predicate PatternOccurrence(p: Pattern, w: Text, begin: bool, end: bool)
    requires WellFormed(p)
  {
    exists i: nat, j: nat :: PatternOccurs(p, w, i, j, begin, end)
  }

  ghost predicate PatternFound(p: Pattern, w: Text, begin: bool, end: bool)
    requires WellFormed(p)
  {
    exists i: nat, j: nat :: PatternOccurs(p, w, i, j, begin, end) && (i < j || w == [])
  }

  /** `Search` finds a text that the pattern denotes, within its anchors; in a non-empty subject
      the text found has to be non-empty. */
  method SearchPattern(begin: bool, p: Pattern, end: bool, w: Text) returns (found: bool)
    requires WellFormed(p) && LoopsRead(p)
    ensures found <==> PatternFound(p, w, begin, end)
  {
    CompilesPattern(begin, p, end);
    LoopsReadIff(p);
    var regex := new GenericRegex(RenderSource(begin, p, end));
    var search := new GenericRegexSearch(regex, Compiled(Expression(p), begin, end));
    var ds := new DecodedStream(w);
    found := search.Search(ds);
    FoundIffPatternFound(p, w, begin, end);
  }

  lemma OccursIffPatternOccurs(p: Pattern, w: Text, i: nat, j: nat, begin: bool, end: bool)
    requires WellFormed(p)
    ensures Occurs(Expression(p), w, i, j, begin, end) <==> PatternOccurs(p, w, i, j, begin, end)
  {
    if i <= j <= |w| {
      DenotesIffMember(p, w[i..j]);
    }
  }

  lemma FoundIffPatternFound(p: Pattern, w: Text, begin: bool, end: bool)
    requires WellFormed(p)
    ensures FoundOccurrence(Expression(p), w, begin, end) <==> PatternFound(p, w, begin, end)
    ensures Occurrence(Expression(p), w, begin, end) <==> PatternOccurrence(p, w, begin, end)
  {
    forall i: nat, j: nat
      ensures Occurs(Expression(p), w, i, j, begin, end) <==> PatternOccurs(p, w, i, j, begin, end)
    {
      OccursIffPatternOccurs(p, w, i, j, begin, end);
    }
  }

  /** `Search` finds every occurrence in every subject if and only if the pattern is anchored at both
      ends, does not denote the empty text, or denotes every single character. */
  lemma PatternMissesIff(p: Pattern, begin: bool, end: bool)
    requires WellFormed(p)
    ensures (forall w: Text :: PatternOccurrence(p, w, begin, end) ==> PatternFound(p, w, begin, end))
            <==> (begin && end) || !Denotes(p, []) || forall c: CodePoint :: Denotes(p, [c])
  {
    var r := Expression(p);
    forall w: Text { FoundIffPatternFound(p, w, begin, end); }
    forall c: CodePoint ensures Denotes(p, [c]) <==> Member(r, [c]) { DenotesIffMember(p, [c]); }
    DenotesIffMember(p, []);
    NullableIsEmptyMember(r);
    SearchMissesIff(r, begin, end);
  }

  /// ## Spelling texts

  /** The characters that have a meaning of their own, outside of brackets. */
  const SYNTAX: set<CodePoint> := {0x5E, 0x24, 0x7C, 0x28, 0x29, 0x3F, 0x2A, 0x2B, 0x2E, 0x5B, 0x7B, 0x5C}

  /** Each token is a character of the text itself, or a documented escape for it. */
  predicate Spells(tokens: seq<Token>, w: Text) {
    && |tokens| == |w|
    && forall i :: 0 <= i < |w| ==>
         match tokens[i]
         case Plain(c) => c == w[i] && c !in SYNTAX
         case Backslash(letter) => letter in ESCAPES && ESCAPES[letter] == w[i]
         case _ => false
  }

  /** Every text can be spelled. */
  function SpelledOut(w: Text): (tokens: seq<Token>)
    ensures Spells(tokens, w)
  {
    seq(|w|, i requires 0 <= i < |w| => if w[i] in SYNTAX then Backslash(w[i]) else Plain(w[i]))
  }

  function Sequence(tokens: seq<Token>): Pattern
    requires tokens != []
  {
    if |tokens| == 1 then Leaf(tokens[0]) else Then(Leaf(tokens[0]), Sequence(tokens[1..]))
  }

  lemma {:induction false} SpellingIsPattern(tokens: seq<Token>, w: Text)
    requires tokens != [] && Spells(tokens, w)
    ensures WellFormed(Sequence(tokens)) && LoopsRead(Sequence(tokens))
  {
    if |tokens| > 1 { SpellingIsPattern(tokens[1..], w[1..]); }
  }

  /** The pattern that spells a text denotes this text and nothing else. */
  lemma {:induction false} SpellingDenotes(tokens: seq<Token>, w: Text, x: Text)
    requires tokens != [] && Spells(tokens, w)
    ensures WellFormed(Sequence(tokens)) && (Denotes(Sequence(tokens), x) <==> x == w)
  {
    SpellingIsPattern(tokens, w);
    if |tokens| == 1 {
      assert x == w <==> |x| == 1 && x[0] == w[0];
    } else {
      var p := Sequence(tokens);
      forall i | 0 <= i <= |x|
        ensures Denotes(p.q, x[i..]) <==> x[i..] == w[1..]
      {
        SpellingDenotes(tokens[1..], w[1..], x[i..]);
      }
      if Denotes(p, x) {
        var i :| 0 <= i <= |x| && Denotes(p.p, x[..i]) && Denotes(p.q, x[i..]);
        assert x == x[..i] + x[i..] && w == [w[0]] + w[1..];
      }
      if x == w {
        assert Denotes(p.p, x[..1]) && Denotes(p.q, x[1..]);
      }
    }
  }

  /** Matching against the spelling of a text is comparing with it. */
  method MatchSpelling(tokens: seq<Token>, w: Text, x: Text) returns (found: bool)
    requires tokens != [] && Spells(tokens, w)
    ensures found <==> x == w
  {
    SpellingIsPattern(tokens, w);
    SpellingDenotes(tokens, w, x);
    found := MatchPattern(false, Sequence(tokens), false, x);
  }

  /// ## Other escapes

  /** A backslash before anything else is refused, wherever a character may stand. */
  lemma UnknownEscapeRejected(y: Yard, letter: CodePoint, rest: Text)
    requires letter !in ESCAPES
    ensures Run(y, ['\\' as int, letter] + rest) == Rejected
  {
    var text := ['\\' as int, letter] + rest;
    EscapeIsRead(letter);
    assert text[1..][0] == letter;
  }

  lemma PatternRejected(p: Pattern, letter: CodePoint, rest: Text)
    requires WellFormed(p) && letter !in ESCAPES
    ensures Compile(['\\' as int, letter] + rest) == Rejected
    ensures Compile(Render(p) + (['\\' as int, letter] + rest)) == Rejected
  {
    RunPattern(EMPTY_YARD, p, ['\\' as int, letter] + rest);
    UnknownEscapeRejected(AfterPattern(EMPTY_YARD, p), letter, rest);
    UnknownEscapeRejected(EMPTY_YARD, letter, rest);
  }

  /** In brackets there is one more escape. */
  lemma ClassRejected(negated: bool, items: seq<Item>, letter: CodePoint, rest: Text)
    requires ItemsOk(items, false) && letter !in ESCAPES && letter != 'b' as int
    requires items != [] && !negated ==> FirstChar(items[0]) != Raw('^' as int)
    ensures ParseRange((if negated then ['^' as int] else [])
                       + (RenderItems(items) + (['\\' as int, letter] + rest))).None?
  {
    var tail := ['\\' as int, letter] + rest;
    EscapeIsRead(letter);
    ParseClassBegin(RenderItems(items) + tail, negated);
    if items == [] {
      assert RenderItems(items) + tail == tail;
    } else {
      ParseClassItems(items, tail, !negated, negated, false, []);
    }
  }
}
