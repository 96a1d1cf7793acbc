/** The regular-expression compiler: a parser that builds automaton states in place. */
module RegexEngine {
  import opened RegexLanguage
  import opened RegexNfa
  import opened RegexBuild
  import opened RegexSemantics
  import opened RegexTermination
  import opened RegexYard
  import opened Wrappers

  /** The decoded text of a pattern or a subject; 0 stands for its end. */
  class DecodedStream {
    var rest: Text

    constructor (text: Text)
      ensures rest == text
    {
      rest := text;
    }

    function Peek(): (c: int)
      reads this
      ensures c == 0 <==> rest == []
      ensures rest != [] ==> c == rest[0]
    {
      if rest == [] then 0 else rest[0]
    }

    method Take() returns (c: int)
      modifies this
      ensures c == old(Peek())
      ensures rest == if old(rest) == [] then [] else old(rest)[1..]
    {
      c := Peek();
      if rest != [] {
        rest := rest[1..];
      }
    }
  }

  /** A fragment that fills the state array and is patched to a new matching state is a finished automaton. */
  lemma LinkedIsAutomaton(before: seq<State>, after: seq<State>, ranges: seq<Range>, r: Regex)
    requires |before| == Size(r) && Shape(before, ranges, r, 0)
    requires Patched(before + [State(INVALID, INVALID, INVALID, 0)], after, Outs(r, 0), |before|)
    ensures Automaton(after, ranges, r, Start(r, 0))
  {
    var grown := before + [State(INVALID, INVALID, INVALID, 0)];
    ShapeSame(before, grown, ranges, ranges, r, 0);
    PatchedIsWired(grown, after, ranges, r, 0, |before|);
    OutsDistinct(r, 0);
    assert after[|before|] == grown[|before|];
  }

  datatype Stacks = Stacks(operands: seq<Frag>, operators: seq<Operator>, atoms: seq<nat>)

  class GenericRegex {
    var states: seq<State>
    var ranges: seq<Range>
    var root: int
    var anchorBegin: bool
    var anchorEnd: bool
    /** Set where the source would violate RAPIDJSON_ASSERT. */
    var assertionFailed: bool

    /** Compiles `source`; the automaton stands for the expression that the yard computes. */
    constructor (source: Text)
      ensures match Compile(source)
              case Ok(c) => !assertionFailed && IsCompiled(c)
              case Rejected => !assertionFailed && !IsValid()
              case AssertionFails => assertionFailed && !IsValid()
    {
      states, ranges, root := [], [], INVALID;
      anchorBegin, anchorEnd, assertionFailed := false, false, false;
      new;
      var ds := new DecodedStream(source);
      var result := Parse(ds);
      assertionFailed := result.AssertionFails?;
    }

    predicate IsValid()
      reads this
    {
      root != INVALID
    }

    ghost predicate IsCompiled(c: Compiled)
      reads this
    {
      && IsValid()
      && Automaton(states, ranges, c.regex, root)
      && ForwardLinks(ranges)
      && anchorBegin == c.anchorBegin && anchorEnd == c.anchorEnd
    }

    method NewState(out: int, out1: int, codepoint: int, rangeStart: int := INVALID) returns (index: nat)
      modifies this`states
      ensures index == |old(states)| && states == old(states) + [State(out, out1, rangeStart, codepoint)]
    {
      index := |states|;
      states := states + [State(out, out1, rangeStart, codepoint)];
    }

    /** Sets every link of the list from `l` on to `s`. */
    method Patch(l: int, s: int, ghost ps: seq<nat>)
      requires ps != [] && l == ps[0] && Distinct(ps) && Chained(states, ps)
      modifies this`states
      ensures Patched(old(states), states, ps, s)
    {
      var l := l;
      ghost var i := 0;
      while l != INVALID
        invariant 0 <= i <= |ps| && l == if i < |ps| then ps[i] else INVALID
        invariant |states| == |old(states)|
        invariant forall j :: 0 <= j < |ps| ==>
          ps[j] < |states| && states[ps[j]] == if j < i then old(states)[ps[j]].(out := s) else old(states)[ps[j]]
        invariant forall k :: 0 <= k < |states| && k !in ps ==> states[k] == old(states)[k]
        decreases |ps| - i
      {
        assert old(states)[ps[i]].out == Next(ps, i);
        var next := states[l].out;
        states := states[l := states[l].(out := s)];
        l := next;
        i := i + 1;
      }
    }

    /** Links the list from `l1` on to `l2`. */
    method Append(l1: int, l2: int, ghost ps: seq<nat>) returns (head: int)
      requires ps != [] && l1 == ps[0] && Chained(states, ps)
      modifies this`states
      ensures head == l1
      ensures ps[|ps| - 1] < |old(states)|
      ensures states == old(states)[ps[|ps| - 1] := old(states)[ps[|ps| - 1]].(out := l2)]
    {
      head := l1;
      var l := l1;
      ghost var i := 0;
      assert states[ps[i]].out == Next(ps, i);
      while states[l].out != INVALID
        invariant 0 <= i < |ps| && l == ps[i] && ps[i] < |states|
        invariant states[ps[i]].out == Next(ps, i)
        decreases |ps| - i
      {
        l := states[l].out;
        i := i + 1;
      }
      states := states[l := states[l].(out := l2)];
    }

    method PushOperand(operands: seq<Frag>, codepoint: int, rangeStart: int, ghost rs: seq<Regex>, ghost sym: Sym)
      returns (operands': seq<Frag>)
      requires Represents(states, ranges, operands, rs)
      requires Encodes(ranges, State(INVALID, INVALID, rangeStart, codepoint), sym)
      modifies this`states
      ensures Represents(states, ranges, operands', rs + [Symbol(sym)])
    {
      PushOperandKeeps(states, ranges, operands, rs, State(INVALID, INVALID, rangeStart, codepoint), sym);
      var s := NewState(INVALID, INVALID, codepoint, rangeStart);
      operands' := operands + [Frag(s, s, s)];
    }

    static function Min(a: int, b: int): int {
      if a < b then a else b
    }

    method EvalConcatenation(operands: seq<Frag>, ghost rs: seq<Regex>) returns (operands': seq<Frag>)
      requires Represents(states, ranges, operands, rs) && |operands| >= 2
      modifies this`states
      ensures |rs| >= 2
      ensures Represents(states, ranges, operands', rs[..|rs| - 2] + [Cat(rs[|rs| - 2], rs[|rs| - 1])])
    {
      RepresentsSizes(states, ranges, operands, rs);
      var n := |operands|;
      ghost var lo, mid := TopTwoOperands(states, ranges, operands, rs);
      var e2, e1 := operands[n - 1], operands[n - 2];
      OutsDistinct(rs[n - 2], lo);
      ghost var before := states;
      Patch(e1.out, e2.start, Outs(rs[n - 2], lo));
      ConcatenationKeeps(before, states, ranges, operands[..n - 2], rs[..n - 2], lo, mid, e1, e2, rs[n - 2], rs[n - 1]);
      operands' := operands[..n - 2] + [Frag(e1.start, e2.out, Min(e1.minIndex, e2.minIndex))];
    }

    method EvalAlternation(operands: seq<Frag>, ghost rs: seq<Regex>) returns (operands': seq<Frag>)
      requires Represents(states, ranges, operands, rs) && |operands| >= 2
      modifies this`states
      ensures |rs| >= 2
      ensures Represents(states, ranges, operands', rs[..|rs| - 2] + [Alt(rs[|rs| - 2], rs[|rs| - 1])])
    {
      RepresentsSizes(states, ranges, operands, rs);
      var n := |operands|;
      ghost var lo, mid := TopTwoOperands(states, ranges, operands, rs);
      var e2, e1 := operands[n - 1], operands[n - 2];
      ghost var before, ps := states, Outs(rs[n - 2], lo);
      OutsDistinct(rs[n - 2], lo);
      var s := NewState(e1.start, e2.start, 0);
      ChainedSame(before, states, ps, lo, mid);
      var out := Append(e1.out, e2.out, ps);
      assert states == before[ps[|ps| - 1] := before[ps[|ps| - 1]].(out := e2.out)]
                       + [State(e1.start, e2.start, INVALID, 0)];
      assert Min(e1.minIndex, e2.minIndex) == lo && s == |before| && out == e1.out;
      AlternationKeeps(before, states, ranges, operands[..n - 2], rs[..n - 2], lo, mid, e1, e2, rs[n - 2], rs[n - 1]);
      operands' := operands[..n - 2] + [Frag(s, out, Min(e1.minIndex, e2.minIndex))];
    }

    method EvalZeroOrOne(operands: seq<Frag>, ghost rs: seq<Regex>) returns (operands': seq<Frag>)
      requires Represents(states, ranges, operands, rs) && |operands| >= 1
      modifies this`states
      ensures |rs| >= 1
      ensures Represents(states, ranges, operands', rs[..|rs| - 1] + [Many(ZeroOrOne, rs[|rs| - 1])])
    {
      RepresentsSizes(states, ranges, operands, rs);
      var n := |operands|;
      ghost var lo := TopOperand(states, ranges, operands, rs);
      var e := operands[n - 1];
      ghost var before, ps := states, Outs(rs[n - 1], lo);
      OutsDistinct(rs[n - 1], lo);
      var s := NewState(INVALID, e.start, 0);
      ChainedSame(before, states, ps, lo, |before|);
      var out := Append(e.out, s, ps);
      ZeroOrOneKeeps(before, states, ranges, operands[..n - 1], rs[..n - 1], lo, e, rs[n - 1]);
      operands' := operands[..n - 1] + [Frag(s, out, e.minIndex)];
    }

    method EvalLoop(operands: seq<Frag>, op: Postfix, ghost rs: seq<Regex>) returns (operands': seq<Frag>)
      requires Represents(states, ranges, operands, rs) && |operands| >= 1 && op != ZeroOrOne
      modifies this`states
      ensures |rs| >= 1
      ensures Represents(states, ranges, operands', rs[..|rs| - 1] + [Many(op, rs[|rs| - 1])])
    {
      RepresentsSizes(states, ranges, operands, rs);
      var n := |operands|;
      ghost var lo := TopOperand(states, ranges, operands, rs);
      var e := operands[n - 1];
      ghost var before, ps := states, Outs(rs[n - 1], lo);
      OutsDistinct(rs[n - 1], lo);
      var s := NewState(INVALID, e.start, 0);
      ChainedSame(before, states, ps, lo, |before|);
      Patch(e.out, s, ps);
      LoopKeeps(before, states, ranges, operands[..n - 1], rs[..n - 1], lo, e, op, rs[n - 1]);
      operands' := operands[..n - 1] + [Frag(if op == OneOrMore then e.start else s, s, e.minIndex)];
    }

    /** Evaluates one operator; the fragments follow the yard. */
    method Eval(operands: seq<Frag>, op: Operator, ghost rs: seq<Regex>) returns (result: Result<seq<Frag>>)
      requires Represents(states, ranges, operands, rs)
      modifies this`states
      ensures match RegexYard.Eval(rs, op)
              case Ok(rs') => result.Ok? && Represents(states, ranges, result.value, rs')
              case Rejected => result.Rejected?
              case AssertionFails => result.AssertionFails?
    {
      RepresentsSizes(states, ranges, operands, rs);
      match op
      case Concatenation =>
        if |operands| < 2 { return AssertionFails; }
        var operands' := EvalConcatenation(operands, rs);
        result := Ok(operands');
      case Alternation =>
        if |operands| < 2 { return Rejected; }
        var operands' := EvalAlternation(operands, rs);
        result := Ok(operands');
      case Postfixed(ZeroOrOne) =>
        if |operands| < 1 { return Rejected; }
        var operands' := EvalZeroOrOne(operands, rs);
        result := Ok(operands');
      case Postfixed(loop) =>
        if |operands| < 1 { return Rejected; }
        var operands' := EvalLoop(operands, loop, rs);
        result := Ok(operands');
      case LeftParenthesis =>
        return AssertionFails;
    }

    static method ShiftLinks(source: seq<State>, count: nat) returns (copy: seq<State>)
      ensures |copy| == |source|
      ensures forall i :: 0 <= i < |source| ==> copy[i] == ShiftedState(source[i], count)
    {
      copy := source;
      var j := 0;
      while j < |copy|
        invariant 0 <= j <= |copy| == |source|
        invariant forall i :: 0 <= i < j ==> copy[i] == ShiftedState(source[i], count)
        invariant forall i :: j <= i < |source| ==> copy[i] == source[i]
      {
        var s := copy[j];
        if s.out != INVALID { s := s.(out := s.out + count); }
        if s.out1 != INVALID { s := s.(out1 := s.out1 + count); }
        copy := copy[j := s];
        j := j + 1;
      }
    }

    /** Copies the states of the top operand, which reach up to the end of the state array. */
    method CloneTopOperand(operands: seq<Frag>, ghost rs: seq<Regex>) returns (operands': seq<Frag>)
      requires Represents(states, ranges, operands, rs) && operands != []
      modifies this`states
      ensures rs != []
      ensures Represents(states, ranges, operands', rs + [rs[|rs| - 1]])
    {
      RepresentsSizes(states, ranges, operands, rs);
      ghost var lo := TopOperand(states, ranges, operands, rs);
      var src := operands[|operands| - 1];
      var count := |states| - src.minIndex;
      assert src.minIndex == lo && count == Size(rs[|rs| - 1]);
      var copy := ShiftLinks(states[src.minIndex..], count);
      CloneKeeps(states, copy, ranges, operands, rs, lo, src, rs[|rs| - 1]);
      states := states + copy;
      operands' := operands + [Frag(src.start + count, src.out + count, src.minIndex + count)];
    }

    /// ## Quantifiers

    method CloneTopOperands(operands: seq<Frag>, times: nat, ghost rs: seq<Regex>) returns (operands': seq<Frag>)
      requires Represents(states, ranges, operands, rs) && rs != []
      modifies this`states
      ensures Represents(states, ranges, operands', rs + Copies(rs[|rs| - 1], times))
    {
      operands' := operands;
      ghost var r := rs[|rs| - 1];
      assert rs + Copies(r, 0) == rs;
      var i := 0;
      while i < times
        invariant 0 <= i <= times
        invariant Represents(states, ranges, operands', rs + Copies(r, i))
      {
        ghost var rs' := rs + Copies(r, i);
        RepresentsSizes(states, ranges, operands', rs');
        operands' := CloneTopOperand(operands', rs');
        assert rs' + [rs'[|rs'| - 1]] == rs + Copies(r, i + 1);
        i := i + 1;
      }
    }

    /** Concatenates the top operands pairwise, `times` times. */
    method ConcatenateOperands(operands: seq<Frag>, times: nat, ghost below: seq<Regex>, ghost list: seq<Regex>)
      returns (operands': seq<Frag>, ghost list': seq<Regex>)
      requires Represents(states, ranges, operands, below + list) && |list| > times
      modifies this`states
      ensures |list'| == |list| - times && CatAll(list') == CatAll(list)
      ensures Represents(states, ranges, operands', below + list')
    {
      operands', list' := operands, list;
      var i := 0;
      while i < times
        invariant 0 <= i <= times
        invariant |list'| == |list| - i && CatAll(list') == CatAll(list)
        invariant Represents(states, ranges, operands', below + list')
      {
        ghost var rs := below + list';
        RepresentsSizes(states, ranges, operands', rs);
        operands' := EvalConcatenation(operands', rs);
        CatAllMergesLast(list');
        ghost var n := |list'|;
        ghost var merged := list'[..n - 2] + [Cat(list'[n - 2], list'[n - 1])];
        assert rs[..|rs| - 2] + [Cat(rs[|rs| - 2], rs[|rs| - 1])] == below + merged;
        list' := merged;
        i := i + 1;
      }
    }

    /** `a{0,m}` with at least one optional copy. */
    method EvalUpTo(operands: seq<Frag>, m: nat, ghost below: seq<Regex>, ghost r: Regex) returns (operands': seq<Frag>)
      requires Represents(states, ranges, operands, below + [r]) && m > 0
      modifies this`states
      ensures Represents(states, ranges, operands', below + [CatAll(Copies(Many(ZeroOrOne, r), m))])
    {
      ghost var opt := Many(ZeroOrOne, r);
      ghost var rs := below + [r];
      RepresentsSizes(states, ranges, operands, rs);
      operands' := EvalZeroOrOne(operands, rs);
      assert rs[..|rs| - 1] + [opt] == below + [opt];
      operands' := CloneTopOperands(operands', m - 1, below + [opt]);
      assert below + [opt] + Copies(opt, m - 1) == below + Copies(opt, m);
      ghost var list;
      operands', list := ConcatenateOperands(operands', m - 1, below, Copies(opt, m));
      assert list == [CatAll(Copies(opt, m))];
    }

    /** `a{n,}` with at least one copy. */
    method EvalAtLeast(operands: seq<Frag>, n: nat, ghost below: seq<Regex>, ghost r: Regex)
      returns (operands': seq<Frag>)
      requires Represents(states, ranges, operands, below + [r]) && n > 0
      modifies this`states
      ensures Represents(states, ranges, operands', below + [CatAll(Copies(r, n - 1) + [Many(OneOrMore, r)])])
    {
      ghost var plus := Many(OneOrMore, r);
      operands' := CloneTopOperands(operands, n - 1, below + [r]);
      ghost var rs := below + [r] + Copies(r, n - 1);
      RepresentsSizes(states, ranges, operands', rs);
      operands' := EvalLoop(operands', OneOrMore, rs);
      ghost var list := Copies(r, n - 1) + [plus];
      assert rs[..|rs| - 1] + [Many(OneOrMore, rs[|rs| - 1])] == below + list;
      ghost var list';
      operands', list' := ConcatenateOperands(operands', n - 1, below, list);
      assert list' == [CatAll(list)];
    }

    /** Behind `n` copies, pushes `extra` optional ones. */
    method PushOptional(operands: seq<Frag>, extra: nat, ghost rs: seq<Regex>) returns (operands': seq<Frag>)
      requires Represents(states, ranges, operands, rs) && rs != [] && extra > 0
      modifies this`states
      ensures Represents(states, ranges, operands', rs + Copies(Many(ZeroOrOne, rs[|rs| - 1]), extra))
    {
      ghost var r := rs[|rs| - 1];
      ghost var opt := Many(ZeroOrOne, r);
      RepresentsSizes(states, ranges, operands, rs);
      operands' := CloneTopOperand(operands, rs);
      ghost var rs' := rs + [r];
      RepresentsSizes(states, ranges, operands', rs');
      operands' := EvalZeroOrOne(operands', rs');
      assert rs'[..|rs'| - 1] + [opt] == rs + [opt];
      operands' := CloneTopOperands(operands', extra - 1, rs + [opt]);
      assert rs + [opt] + Copies(opt, extra - 1) == rs + Copies(opt, extra);
    }

    method PushRepeated(operands: seq<Frag>, n: nat, m: nat, ghost below: seq<Regex>, ghost r: Regex)
      returns (operands': seq<Frag>)
      requires Represents(states, ranges, operands, below + [r]) && 0 < n <= m
      modifies this`states
      ensures Represents(states, ranges, operands', below + (Copies(r, n) + Copies(Many(ZeroOrOne, r), m - n)))
    {
      operands' := CloneTopOperands(operands, n - 1, below + [r]);
      ghost var rs := below + Copies(r, n);
      assert below + [r] + Copies(r, n - 1) == rs;
      ghost var optional := Copies(Many(ZeroOrOne, r), m - n);
      assert rs + optional == below + (Copies(r, n) + optional);
      if m > n {
        operands' := PushOptional(operands', m - n, rs);
      } else {
        assert optional == [] && rs + optional == rs;
      }
    }

    /** `a{n,m}` with at least one copy. */
    method EvalBetween(operands: seq<Frag>, n: nat, m: nat, ghost below: seq<Regex>, ghost r: Regex)
      returns (operands': seq<Frag>)
      requires Represents(states, ranges, operands, below + [r]) && 0 < n <= m
      modifies this`states
      ensures Represents(states, ranges, operands',
                         below + [CatAll(Copies(r, n) + Copies(Many(ZeroOrOne, r), m - n))])
    {
      operands' := PushRepeated(operands, n, m, below, r);
      ghost var list := Copies(r, n) + Copies(Many(ZeroOrOne, r), m - n);
      ghost var list', list'';
      operands', list' := ConcatenateOperands(operands', m - n, below, list);
      operands', list'' := ConcatenateOperands(operands', n - 1, below, list');
      assert list'' == [CatAll(list)];
    }

    method EvalQuantifier(operands: seq<Frag>, n: nat, m: nat, ghost rs: seq<Regex>) returns (result: Result<seq<Frag>>)
      requires Represents(states, ranges, operands, rs) && n <= m
      modifies this`states
      ensures match RegexYard.EvalQuantifier(rs, n, m)
              case Ok(rs') => result.Ok? && Represents(states, ranges, result.value, rs')
              case Rejected => result.Rejected?
              case AssertionFails => result.AssertionFails?
    {
      RepresentsSizes(states, ranges, operands, rs);
      if operands == [] { return AssertionFails; }
      ghost var top := |rs| - 1;
      ghost var below, r := rs[..top], rs[top];
      assert below + [r] == rs;
      var operands';
      if n == 0 {
        if m == 0 {
          return Rejected;
        } else if m == INFINITY_QUANTIFIER {
          operands' := EvalLoop(operands, ZeroOrMore, rs);
        } else {
          operands' := EvalUpTo(operands, m, below, r);
        }
      } else if m == INFINITY_QUANTIFIER {
        operands' := EvalAtLeast(operands, n, below, r);
      } else {
        operands' := EvalBetween(operands, n, m, below, r);
      }
      result := Ok(operands');
    }

    /// ## Tokens

    method ParseUnsigned(ds: DecodedStream) returns (u: Option<nat>)
      modifies ds
      ensures match RegexYard.ParseUnsigned(old(ds.rest))
              case None => u == None
              case Some((v, rest)) => u == Some(v) && ds.rest == rest
    {
      if ds.Peek() < '0' as int || ds.Peek() > '9' as int { return None; }
      var r: nat := 0;
      while '0' as int <= ds.Peek() <= '9' as int
        invariant r < WORD
        invariant RegexYard.ParseUnsigned(old(ds.rest)) == ParseDigits(ds.rest, r)
        decreases |ds.rest|
      {
        if r >= 429496729 && ds.Peek() > '5' as int { return None; }
        var c := ds.Take();
        r := (r * 10 + (c - '0' as int)) % WORD;
      }
      u := Some(r);
    }

    method CharacterEscape(ds: DecodedStream) returns (escaped: Option<CodePoint>)
      modifies ds
      ensures old(ds.rest) == [] ==> escaped == None
      ensures old(ds.rest) != [] ==> escaped == EscapedCharacter(old(ds.rest)[0]) && ds.rest == old(ds.rest)[1..]
    {
      var c := ds.Take();
      escaped := if c == 0 then None else EscapedCharacter(c);
    }

    method NewRange(codepoint: CodePoint) returns (index: nat)
      modifies this`ranges
      ensures index == |old(ranges)| && ranges == old(ranges) + [Range(codepoint, codepoint, INVALID)]
    {
      index := |ranges|;
      ranges := ranges + [Range(codepoint, codepoint, INVALID)];
    }

    /** The ranges above `base` are the list of the items read so far. */
    ghost predicate Listed(base: nat, items: seq<Interval>)
      reads this
    {
      && |ranges| == base + |items|
      && forall i :: 0 <= i < |items| ==>
           ranges[base + i] == Range(items[i].first, items[i].last, if i + 1 < |items| then base + i + 1 else INVALID)
    }

    /** Adds a member to the class: `NewRange`, linked behind the last one. */
    method AddRange(current: int, codepoint: CodePoint, ghost base: nat, ghost items: seq<Interval>) returns (r: nat)
      requires Listed(base, items) && ForwardLinks(ranges)
      requires current == if items == [] then INVALID else |ranges| - 1
      modifies this`ranges
      ensures r == |old(ranges)| && |ranges| == r + 1 && ForwardLinks(ranges)
      ensures base <= |old(ranges)| && ranges[..base] == old(ranges)[..base]
      ensures Listed(base, items + [Interval(codepoint, codepoint)])
    {
      r := NewRange(codepoint);
      if current != INVALID {
        ranges := ranges[current := ranges[current].(next := r)];
      }
    }

    /** The closing bracket: a pending `-` is a member, and the flag goes to the first range. */
    method CloseClass(start: int, current: int, negate: bool, step: nat, ghost base: nat, ghost items: seq<Interval>)
      returns (ghost items': seq<Interval>)
      requires Listed(base, items) && ForwardLinks(ranges) && items != []
      requires start == base && current == |ranges| - 1
      modifies this`ranges
      ensures base <= |ranges| && |old(ranges)| >= base && ranges[..base] == old(ranges)[..base] && ForwardLinks(ranges)
      ensures items' == if step == 2 then items + [Interval('-' as int, '-' as int)] else items
      ensures ClassAt(ranges, start, negate, items')
    {
      items' := items;
      if step == 2 {
        var _ := AddRange(current, '-' as int, base, items);
        items' := items + [Interval('-' as int, '-' as int)];
      }
      if negate {
        ranges := ranges[start := ranges[start].(start := ranges[start].start + RANGE_NEGATION_FLAG)];
      }
    }

    /** One member, or the end of a span. */
    method AddItem(start: int, current: int, step: nat, codepoint: CodePoint, ghost base: nat,
                   ghost items: seq<Interval>)
      returns (start': int, current': int, step': nat, ghost items': seq<Interval>)
      requires Listed(base, items) && ForwardLinks(ranges)
      requires step <= 2 && (step > 0 ==> items != [])
      requires start == (if items == [] then INVALID else base)
      requires current == (if items == [] then INVALID else |ranges| - 1)
      modifies this`ranges
      ensures Listed(base, items') && ForwardLinks(ranges)
      ensures base <= |ranges| && |old(ranges)| >= base && ranges[..base] == old(ranges)[..base]
      ensures items' != [] && start' == base && current' == |ranges| - 1 && step' <= 2
      ensures forall rest, negate :: ParseItem(rest, codepoint, negate, step, items)
                                     == ParseClass(rest, false, negate, step', items')
    {
      start', current', items' := start, current, items;
      if step == 1 && codepoint == '-' as int {
        step' := 2;
      } else if step < 2 {
        var r := AddRange(current, codepoint, base, items);
        items' := items + [Interval(codepoint, codepoint)];
        if start == INVALID { start' := r; }
        current' := r;
        step' := 1;
      } else {
        ghost var last := |items| - 1;
        ranges := ranges[current := ranges[current].(end := codepoint)];
        items' := items[last := Interval(items[last].first, codepoint)];
        step' := 0;
      }
    }

    method ParseRange(ds: DecodedStream) returns (range: Option<nat>)
      requires ForwardLinks(ranges)
      modifies this`ranges, ds
      ensures ForwardLinks(ranges) && old(ranges) <= ranges
      ensures match RegexYard.ParseRange(old(ds.rest))
              case None => range == None
              case Some((sym, rest)) =>
                && range.Some? && ds.rest == rest && sym.Class?
                && ClassAt(ranges, range.value, sym.negated, sym.items)
    {
      var isBegin, negate, step := true, false, 0;
      var start, current := INVALID, INVALID;
      ghost var base := |ranges|;
      ghost var items: seq<Interval> := [];
      assert ranges[..base] == old(ranges);
      while ds.rest != []
        invariant step <= 2 && (step > 0 ==> items != []) && (isBegin ==> items == [] && step == 0)
        invariant Listed(base, items) && ForwardLinks(ranges)
        invariant base <= |ranges| && ranges[..base] == old(ranges)
        invariant start == (if items == [] then INVALID else base)
        invariant current == (if items == [] then INVALID else |ranges| - 1)
        invariant RegexYard.ParseRange(old(ds.rest)) == ParseClass(ds.rest, isBegin, negate, step, items)
        decreases |ds.rest|
      {
        var codepoint := ds.Take();
        var wasBegin := isBegin;
        isBegin := false;
        if wasBegin && codepoint == '^' as int {
          negate := true;
          continue;
        }
        if codepoint == ']' as int {
          if start == INVALID { return None; }
          ghost var items' := CloseClass(start, current, negate, step, base, items);
          return Some(start);
        }
        if codepoint == '\\' as int {
          if ds.Peek() == 'b' as int {
            var _ := ds.Take();
            codepoint := 0x08;
          } else {
            var escaped := CharacterEscape(ds);
            if escaped == None { return None; }
            codepoint := escaped.value;
          }
        }
        assert RegexYard.ParseRange(old(ds.rest)) == ParseItem(ds.rest, codepoint, negate, step, items);
        start, current, step, items := AddItem(start, current, step, codepoint, base, items);
      }
      range := None;
    }

    /// ## The parser

    /** The three stacks of the parser, and the flags, are those of the yard `y`. */
    ghost predicate Follows(st: Stacks, y: Yard)
      reads this
    {
      && Represents(states, ranges, st.operands, y.operands)
      && st.operators == y.operators && st.atoms == y.atoms
      && anchorBegin == y.anchorBegin && anchorEnd == y.anchorEnd
      && ForwardLinks(ranges)
    }

    ghost predicate FollowsResult(result: Result<Stacks>, y: Result<Yard>)
      reads this
    {
      match y
      case Ok(y') => result.Ok? && Follows(result.value, y')
      case Rejected => result.Rejected?
      case AssertionFails => result.AssertionFails?
    }

    method Reduce(st: Stacks, barrier: Barrier, ghost y: Yard) returns (result: Result<Stacks>)
      requires Follows(st, y)
      modifies this`states
      ensures match RegexYard.Reduce(barrier, y.operands, y.operators)
              case Ok((os, ops)) => result.Ok? && Follows(result.value, y.(operands := os, operators := ops))
              case Rejected => result.Rejected?
              case AssertionFails => result.AssertionFails?
    {
      var operands, operators := st.operands, st.operators;
      ghost var rs := y.operands;
      while operators != [] && !Stops(barrier, operators[|operators| - 1])
        invariant Represents(states, ranges, operands, rs)
        invariant RegexYard.Reduce(barrier, y.operands, y.operators) == RegexYard.Reduce(barrier, rs, operators)
        decreases |operators|
      {
        var top := |operators| - 1;
        var evaluated := Eval(operands, operators[top], rs);
        match evaluated {
          case Ok(operands') =>
            rs := RegexYard.Eval(rs, operators[top]).value;
            operands, operators := operands', operators[..top];
          case Rejected => return Rejected;
          case AssertionFails => return AssertionFails;
        }
      }
      result := Ok(st.(operands := operands, operators := operators));
    }

    method ImplicitConcatenation(st: Stacks, ghost y: Yard) returns (result: Result<Stacks>)
      requires Follows(st, y)
      ensures FollowsResult(result, RegexYard.ImplicitConcatenation(y))
    {
      if st.atoms == [] { return AssertionFails; }
      var top := |st.atoms| - 1;
      var st' := st;
      if st.atoms[top] != 0 {
        st' := st'.(operators := st'.operators + [Concatenation]);
      }
      result := Ok(st'.(atoms := st'.atoms[top := st'.atoms[top] + 1]));
    }

    method ParseSymbol(st: Stacks, codepoint: int, rangeStart: int, ghost y: Yard, ghost sym: Sym)
      returns (result: Result<Stacks>)
      requires Follows(st, y) && Encodes(ranges, State(INVALID, INVALID, rangeStart, codepoint), sym)
      modifies this`states
      ensures FollowsResult(result, PushSymbol(y, sym))
    {
      var operands := PushOperand(st.operands, codepoint, rangeStart, y.operands, sym);
      result := ImplicitConcatenation(st.(operands := operands), y.(operands := y.operands + [Symbol(sym)]));
    }

    method ParsePostfix(st: Stacks, op: Postfix, ghost y: Yard) returns (result: Result<Stacks>)
      requires Follows(st, y)
      modifies this`states
      ensures FollowsResult(result, Postfixing(y, op))
    {
      var evaluated := Eval(st.operands, Postfixed(op), y.operands);
      match evaluated
      case Ok(operands) => result := Ok(st.(operands := operands));
      case Rejected => result := Rejected;
      case AssertionFails => result := AssertionFails;
    }

    method ParseBar(st: Stacks, ghost y: Yard) returns (result: Result<Stacks>)
      requires Follows(st, y)
      modifies this`states
      ensures FollowsResult(result, Alternating(y))
    {
      result := Reduce(st, AtAlternation, y);
      if result.Ok? {
        var st' := result.value;
        if st'.atoms == [] { return AssertionFails; }
        result := Ok(st'.(operators := st'.operators + [Alternation], atoms := st'.atoms[|st'.atoms| - 1 := 0]));
      }
    }

    method ParseClose(st: Stacks, ghost y: Yard) returns (result: Result<Stacks>)
      requires Follows(st, y)
      modifies this`states
      ensures FollowsResult(result, Closing(y))
    {
      result := Reduce(st, AtParenthesis, y);
      if result.Ok? {
        ghost var (os, ops) := RegexYard.Reduce(AtParenthesis, y.operands, y.operators).value;
        result := CloseGroup(result.value, y.(operands := os, operators := ops));
      }
    }

    method CloseGroup(st: Stacks, ghost y: Yard) returns (result: Result<Stacks>)
      requires Follows(st, y)
      ensures FollowsResult(result, RegexYard.CloseGroup(y, y.operands, y.operators))
    {
      if st.operators == [] { return Rejected; }
      if st.atoms == [] { return AssertionFails; }
      var n, m := |st.operators| - 1, |st.atoms| - 1;
      result := ImplicitConcatenation(st.(operators := st.operators[..n], atoms := st.atoms[..m]),
                                      y.(operators := y.operators[..n], atoms := y.atoms[..m]));
    }

    ghost predicate FollowsTurn(result: Result<Stacks>, rest: Text, turn: Result<(Yard, Text)>)
      reads this
    {
      match turn
      case Ok((y, rest')) => result.Ok? && Follows(result.value, y) && rest == rest'
      case Rejected => result.Rejected?
      case AssertionFails => result.AssertionFails?
    }

    method ReadBounds(ds: DecodedStream) returns (bounds: Option<(nat, nat)>)
      modifies ds
      ensures match ParseBounds(old(ds.rest))
              case None => bounds == None
              case Some((n, m, rest)) => bounds == Some((n, m)) && ds.rest == rest
    {
      var n := ParseUnsigned(ds);
      if n == None { return None; }
      var m: nat;
      if ds.Peek() == ',' as int {
        var _ := ds.Take();
        if ds.Peek() == '}' as int {
          m := INFINITY_QUANTIFIER;
        } else {
          var u := ParseUnsigned(ds);
          if u == None || u.value < n.value { return None; }
          m := u.value;
        }
      } else {
        m := n.value;
      }
      bounds := Some((n.value, m));
    }

    method ParseQuantifier(ds: DecodedStream, st: Stacks, ghost y: Yard) returns (result: Result<Stacks>)
      requires Follows(st, y)
      modifies this`states, ds
      ensures match ParseBounds(old(ds.rest))
              case None => result.Rejected?
              case Some((n, m, rest)) => FollowsTurn(result, ds.rest, Bounding(y, n, m, rest))
    {
      var bounds := ReadBounds(ds);
      if bounds == None { return Rejected; }
      var evaluated := EvalQuantifier(st.operands, bounds.value.0, bounds.value.1, y.operands);
      match evaluated
      case Ok(operands) =>
        if ds.Peek() != '}' as int { return Rejected; }
        var _ := ds.Take();
        result := Ok(st.(operands := operands));
      case Rejected => result := Rejected;
      case AssertionFails => result := AssertionFails;
    }

    method ParseBracket(ds: DecodedStream, st: Stacks, ghost y: Yard) returns (result: Result<Stacks>)
      requires Follows(st, y)
      modifies this`states, this`ranges, ds
      ensures match RegexYard.ParseRange(old(ds.rest))
              case None => result.Rejected?
              case Some((sym, rest)) => FollowsTurn(result, ds.rest, With(PushSymbol(y, sym), rest))
    {
      ghost var text, before := ds.rest, ranges;
      var range := ParseRange(ds);
      if range == None { return Rejected; }
      RepresentsMoreRanges(states, before, ranges, st.operands, y.operands);
      ghost var sym := RegexYard.ParseRange(text).value.0;
      result := ParseSymbol(st, RANGE_CHARACTER_CLASS, range.value, y, sym);
    }

    method ParseEscape(ds: DecodedStream, st: Stacks, ghost y: Yard) returns (result: Result<Stacks>)
      requires Follows(st, y)
      modifies this`states, ds
      ensures old(ds.rest) == [] || EscapedCharacter(old(ds.rest)[0]) == None ==> result.Rejected?
      ensures old(ds.rest) != [] && EscapedCharacter(old(ds.rest)[0]) != None ==>
                FollowsTurn(result, ds.rest,
                            With(PushSymbol(y, Exact(EscapedCharacter(old(ds.rest)[0]).value)), old(ds.rest)[1..]))
    {
      var escaped := CharacterEscape(ds);
      if escaped == None { return Rejected; }
      result := ParseSymbol(st, escaped.value, INVALID, y, Exact(escaped.value));
    }

    /** One turn of the parser's loop. */
    method ParseToken(ds: DecodedStream, st: Stacks, ghost y: Yard) returns (result: Result<Stacks>)
      requires Follows(st, y) && ds.rest != []
      modifies this, ds
      ensures root == old(root) && assertionFailed == old(assertionFailed)
      ensures FollowsTurn(result, ds.rest, Turn(y, old(ds.rest)))
    {
      var c := ds.Take();
      if c == '^' as int {
        anchorBegin := true;
        result := Ok(st);
      } else if c == '$' as int {
        anchorEnd := true;
        result := Ok(st);
      } else if c == '|' as int {
        result := ParseBar(st, y);
      } else if c == '(' as int {
        result := Ok(st.(operators := st.operators + [LeftParenthesis], atoms := st.atoms + [0]));
      } else if c == ')' as int {
        result := ParseClose(st, y);
      } else if c == '?' as int {
        result := ParsePostfix(st, ZeroOrOne, y);
      } else if c == '*' as int {
        result := ParsePostfix(st, ZeroOrMore, y);
      } else if c == '+' as int {
        result := ParsePostfix(st, OneOrMore, y);
      } else if c == '{' as int {
        result := ParseQuantifier(ds, st, y);
      } else if c == '.' as int {
        result := ParseSymbol(st, ANY_CHARACTER_CLASS, INVALID, y, Any);
      } else if c == '[' as int {
        result := ParseBracket(ds, st, y);
      } else if c == '\\' as int {
        result := ParseEscape(ds, st, y);
      } else {
        result := ParseSymbol(st, c, INVALID, y, Exact(c));
      }
    }

    /** Links the only operand to a new matching state. */
    method LinkMatchingState(operands: seq<Frag>, ghost r: Regex)
      requires Represents(states, ranges, operands, [r])
      modifies this`states, this`root
      ensures Automaton(states, ranges, r, root)
    {
      RepresentsSizes(states, ranges, operands, [r]);
      ghost var lo := TopOperand(states, ranges, operands, [r]);
      assert lo == 0;
      ghost var before := states;
      OutsDistinct(r, 0);
      var e := operands[0];
      var s := NewState(INVALID, INVALID, 0);
      ChainedSame(before, states, Outs(r, 0), 0, |before|);
      Patch(e.out, s, Outs(r, 0));
      LinkedIsAutomaton(before, states, ranges, r);
      root := e.start;
    }

    method Parse(ds: DecodedStream) returns (result: Result<()>)
      requires states == [] && ranges == [] && root == INVALID && !anchorBegin && !anchorEnd
      modifies this, ds
      ensures assertionFailed == old(assertionFailed)
      ensures match Compile(old(ds.rest))
              case Ok(c) => result.Ok? && IsCompiled(c)
              case Rejected => result.Rejected? && !IsValid()
              case AssertionFails => result.AssertionFails? && !IsValid()
    {
      var st := Stacks([], [], [0]);
      ghost var y := EMPTY_YARD;
      while ds.rest != []
        invariant Follows(st, y) && root == INVALID && assertionFailed == old(assertionFailed)
        invariant Compile(old(ds.rest)) == Run(y, ds.rest)
        decreases |ds.rest|
      {
        ghost var turn := Turn(y, ds.rest);
        var parsed := ParseToken(ds, st, y);
        match parsed {
          case Ok(st') =>
            y := turn.value.0;
            st := st';
          case Rejected => return Rejected;
          case AssertionFails => return AssertionFails;
        }
      }
      var reduced := Reduce(st, AtBottom, y);
      match reduced
      case Ok(st') =>
        ghost var os := RegexYard.Reduce(AtBottom, y.operands, y.operators).value.0;
        RepresentsSizes(states, ranges, st'.operands, os);
        if |st'.operands| != 1 { return Rejected; }
        assert os == [os[0]];
        LinkMatchingState(st'.operands, os[0]);
        result := Ok(());
      case Rejected => return Rejected;
      case AssertionFails => return AssertionFails;
    }
  }
}
