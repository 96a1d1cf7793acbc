/** What an automaton accepts, and why a compiled one accepts the language of its expression. */
module RegexSemantics {
  import opened RegexLanguage
  import opened RegexNfa

  /** The lists of class ranges only link forward. */
  ghost predicate ForwardLinks(ranges: seq<Range>) {
    forall i :: 0 <= i < |ranges| ==> ranges[i].next == INVALID || i < ranges[i].next < |ranges|
  }

  predicate Covers(r: Range, c: CodePoint) {
    r.start % RANGE_NEGATION_FLAG <= c <= r.end
  }

  ghost predicate InRangeList(ranges: seq<Range>, i: int, c: CodePoint)
    requires ForwardLinks(ranges)
    requires i == INVALID || 0 <= i < |ranges|
    decreases if i == INVALID then 0 else |ranges| - i
  {
    i != INVALID && (Covers(ranges[i], c) || InRangeList(ranges, ranges[i].next, c))
  }

  ghost predicate RangeMatches(ranges: seq<Range>, i: nat, c: CodePoint)
    requires ForwardLinks(ranges) && i < |ranges|
  {
    InRangeList(ranges, i, c) != (ranges[i].start >= RANGE_NEGATION_FLAG)
  }

  ghost predicate Steps(ranges: seq<Range>, s: State, c: CodePoint)
    requires ForwardLinks(ranges)
  {
    || s.codepoint == c
    || s.codepoint == ANY_CHARACTER_CLASS
    || (s.codepoint == RANGE_CHARACTER_CLASS && 0 <= s.rangeStart < |ranges| && RangeMatches(ranges, s.rangeStart, c))
  }

  lemma {:induction false} ListedItems(ranges: seq<Range>, at: nat, negated: bool, items: seq<Interval>, n: nat,
                                       c: CodePoint)
    requires ForwardLinks(ranges) && ClassAt(ranges, at, negated, items) && n < |items|
    ensures InRangeList(ranges, at + n, c) <==> exists i :: n <= i < |items| && items[i].first <= c <= items[i].last
    decreases |items| - n
  {
    assert Covers(ranges[at + n], c) <==> items[n].first <= c <= items[n].last;
    if n + 1 < |items| {
      ListedItems(ranges, at, negated, items, n + 1, c);
      assert ranges[at + n].next == at + n + 1;
    }
  }

  lemma EncodedSteps(ranges: seq<Range>, s: State, sym: Sym, c: CodePoint)
    requires ForwardLinks(ranges) && Encodes(ranges, s, sym)
    ensures Steps(ranges, s, c) <==> Accepts(sym, c)
  {
    if sym.Class? {
      ListedItems(ranges, s.rangeStart, sym.negated, sym.items, 0, c);
      assert sym.items[0].first < RANGE_NEGATION_FLAG;
      assert ranges[s.rangeStart + 0].start >= RANGE_NEGATION_FLAG <==> sym.negated;
    }
  }

  /// ## Acceptance from a state

  ghost predicate IsSplit(s: State) {
    s.out1 != INVALID
  }

  /** All links lead to states, and the ones followed without reading decrease in rank. */
  ghost predicate Ranked(states: seq<State>, rank: seq<nat>) {
    && |rank| == |states|
    && forall i :: 0 <= i < |states| ==> RankedState(states, rank, i)
  }

  ghost predicate RankedState(states: seq<State>, rank: seq<nat>, i: nat)
    requires |rank| == |states| && i < |states|
  {
    var s := states[i];
    if IsSplit(s) then
      0 <= s.out < |states| && 0 <= s.out1 < |states| && rank[s.out] < rank[i] && rank[s.out1] < rank[i]
    else
      s.out == INVALID || 0 <= s.out < |states|
  }

  ghost predicate Accepting(states: seq<State>, ranges: seq<Range>, rank: seq<nat>, i: nat, w: Text)
    requires Ranked(states, rank) && ForwardLinks(ranges) && i < |states|
    decreases |w|, rank[i]
  {
    assert RankedState(states, rank, i);
    var s := states[i];
    if IsSplit(s) then
      Accepting(states, ranges, rank, s.out, w) || Accepting(states, ranges, rank, s.out1, w)
    else if s.out == INVALID then
      w == []
    else
      w != [] && Steps(ranges, s, w[0]) && Accepting(states, ranges, rank, s.out, w[1..])
  }

  /** `w` is a word of `r` followed by a text accepted from `k`. */
  ghost predicate Through(states: seq<State>, ranges: seq<Range>, rank: seq<nat>, r: Regex, k: nat, w: Text)
    requires Ranked(states, rank) && ForwardLinks(ranges) && k < |states|
  {
    exists j :: 0 <= j <= |w| && Member(r, w[..j]) && Accepting(states, ranges, rank, k, w[j..])
  }

  ghost predicate ThroughLoop(states: seq<State>, ranges: seq<Range>, rank: seq<nat>, e: Regex, k: nat, w: Text)
    requires Ranked(states, rank) && ForwardLinks(ranges) && k < |states|
  {
    exists j :: 0 <= j <= |w| && Iterated(e, w[..j]) && Accepting(states, ranges, rank, k, w[j..])
  }

  /** A wired fragment reads exactly the words of its expression before it continues at `k`. */
  lemma {:induction false} Thompson(states: seq<State>, ranges: seq<Range>, rank: seq<nat>,
                                    r: Regex, lo: nat, k: nat, w: Text)
    requires Ranked(states, rank) && ForwardLinks(ranges)
    requires k < |states| && Wired(states, ranges, r, lo, k) && LoopsProgress(r)
    ensures Accepting(states, ranges, rank, Start(r, lo), w) <==> Through(states, ranges, rank, r, k, w)
    decreases |w|, r, 0
  {
    if r.Symbol? {
      ThompsonSymbol(states, ranges, rank, r.sym, lo, k, w);
    } else if r.Cat? {
      ThompsonCat(states, ranges, rank, r.left, r.right, lo, k, w);
    } else if r.Alt? {
      ThompsonAlt(states, ranges, rank, r.left, r.right, lo, k, w);
    } else if r.op == ZeroOrOne {
      ThompsonOptional(states, ranges, rank, r.e, lo, k, w);
    } else if r.op == ZeroOrMore {
      ThompsonLoop(states, ranges, rank, r.e, lo, k, w);
    } else {
      ThompsonPlus(states, ranges, rank, r.e, lo, k, w);
    }
  }

  lemma ThompsonSymbol(states: seq<State>, ranges: seq<Range>, rank: seq<nat>, sym: Sym, lo: nat, k: nat, w: Text)
    requires Ranked(states, rank) && ForwardLinks(ranges)
    requires k < |states| && Wired(states, ranges, Symbol(sym), lo, k)
    ensures Accepting(states, ranges, rank, lo, w) <==> Through(states, ranges, rank, Symbol(sym), k, w)
  {
    if w != [] {
      EncodedSteps(ranges, states[lo], sym, w[0]);
      assert w[..1] == [w[0]];
    }
  }

  ghost predicate FirstThenThrough(states: seq<State>, ranges: seq<Range>, rank: seq<nat>,
                                   p: Regex, q: Regex, k: nat, w: Text)
    requires Ranked(states, rank) && ForwardLinks(ranges) && k < |states|
  {
    exists j :: 0 <= j <= |w| && Member(p, w[..j]) && Through(states, ranges, rank, q, k, w[j..])
  }

  lemma CatJoin(states: seq<State>, ranges: seq<Range>, rank: seq<nat>, p: Regex, q: Regex, k: nat, w: Text)
    requires Ranked(states, rank) && ForwardLinks(ranges) && k < |states|
    requires FirstThenThrough(states, ranges, rank, p, q, k, w)
    ensures Through(states, ranges, rank, Cat(p, q), k, w)
  {
    var j :| 0 <= j <= |w| && Member(p, w[..j]) && Through(states, ranges, rank, q, k, w[j..]);
    var rest := w[j..];
    var i :| 0 <= i <= |rest| && Member(q, rest[..i]) && Accepting(states, ranges, rank, k, rest[i..]);
    Slices(w, j, j + i);
    assert Member(Cat(p, q), w[..j + i]);
  }

  lemma CatSplit(states: seq<State>, ranges: seq<Range>, rank: seq<nat>, p: Regex, q: Regex, k: nat, w: Text)
    requires Ranked(states, rank) && ForwardLinks(ranges) && k < |states|
    requires Through(states, ranges, rank, Cat(p, q), k, w)
    ensures FirstThenThrough(states, ranges, rank, p, q, k, w)
  {
    var n :| 0 <= n <= |w| && Member(Cat(p, q), w[..n]) && Accepting(states, ranges, rank, k, w[n..]);
    var head := w[..n];
    var j :| 0 <= j <= |head| && Member(p, head[..j]) && Member(q, head[j..]);
    Slices(w, j, n);
    ThroughAt(states, ranges, rank, q, k, w[j..], n - j);
  }

  lemma ThroughAt(states: seq<State>, ranges: seq<Range>, rank: seq<nat>, r: Regex, k: nat, w: Text, i: nat)
    requires Ranked(states, rank) && ForwardLinks(ranges) && k < |states|
    requires i <= |w| && Member(r, w[..i]) && Accepting(states, ranges, rank, k, w[i..])
    ensures Through(states, ranges, rank, r, k, w)
  {
  }

  lemma {:induction false} ThompsonCat(states: seq<State>, ranges: seq<Range>, rank: seq<nat>,
                                       p: Regex, q: Regex, lo: nat, k: nat, w: Text)
    requires Ranked(states, rank) && ForwardLinks(ranges)
    requires k < |states| && Wired(states, ranges, Cat(p, q), lo, k) && LoopsProgress(Cat(p, q))
    ensures Accepting(states, ranges, rank, Start(p, lo), w) <==> Through(states, ranges, rank, Cat(p, q), k, w)
    decreases |w|, Cat(p, q), -1
  {
    var mid := lo + Size(p);
    Thompson(states, ranges, rank, p, lo, Start(q, mid), w);
    forall j | 0 <= j <= |w|
      ensures Accepting(states, ranges, rank, Start(q, mid), w[j..]) <==> Through(states, ranges, rank, q, k, w[j..])
    {
      Thompson(states, ranges, rank, q, mid, k, w[j..]);
    }
    assert Through(states, ranges, rank, p, Start(q, mid), w) <==> FirstThenThrough(states, ranges, rank, p, q, k, w);
    if FirstThenThrough(states, ranges, rank, p, q, k, w) {
      CatJoin(states, ranges, rank, p, q, k, w);
    }
    if Through(states, ranges, rank, Cat(p, q), k, w) {
      CatSplit(states, ranges, rank, p, q, k, w);
    }
  }

  lemma {:induction false} ThompsonAlt(states: seq<State>, ranges: seq<Range>, rank: seq<nat>,
                                       p: Regex, q: Regex, lo: nat, k: nat, w: Text)
    requires Ranked(states, rank) && ForwardLinks(ranges)
    requires k < |states| && Wired(states, ranges, Alt(p, q), lo, k) && LoopsProgress(Alt(p, q))
    ensures Accepting(states, ranges, rank, lo + Size(p) + Size(q), w)
            <==> Through(states, ranges, rank, Alt(p, q), k, w)
    decreases |w|, Alt(p, q), -1
  {
    Thompson(states, ranges, rank, p, lo, k, w);
    Thompson(states, ranges, rank, q, lo + Size(p), k, w);
  }

  lemma {:induction false} ThompsonOptional(states: seq<State>, ranges: seq<Range>, rank: seq<nat>, e: Regex, lo: nat,
                                            k: nat, w: Text)
    requires Ranked(states, rank) && ForwardLinks(ranges)
    requires k < |states| && Wired(states, ranges, Many(ZeroOrOne, e), lo, k) && LoopsProgress(e)
    ensures Accepting(states, ranges, rank, lo + Size(e), w)
            <==> Through(states, ranges, rank, Many(ZeroOrOne, e), k, w)
    decreases |w|, e, 1
  {
    Thompson(states, ranges, rank, e, lo, k, w);
    assert w[..0] == [] && w[0..] == w;
  }

  ghost predicate OnceThenLoop(states: seq<State>, ranges: seq<Range>, rank: seq<nat>, e: Regex, k: nat, w: Text)
    requires Ranked(states, rank) && ForwardLinks(ranges) && k < |states|
  {
    exists j :: 0 <= j <= |w| && Member(e, w[..j]) && ThroughLoop(states, ranges, rank, e, k, w[j..])
  }

  lemma LoopJoin(states: seq<State>, ranges: seq<Range>, rank: seq<nat>, e: Regex, k: nat, w: Text)
    returns (n: nat)
    requires Ranked(states, rank) && ForwardLinks(ranges) && k < |states|
    requires OnceThenLoop(states, ranges, rank, e, k, w)
    ensures n <= |w| && Accepting(states, ranges, rank, k, w[n..])
    ensures exists j :: 0 <= j <= n && Member(e, w[..n][..j]) && Iterated(e, w[..n][j..])
  {
    var j :| 0 <= j <= |w| && Member(e, w[..j]) && ThroughLoop(states, ranges, rank, e, k, w[j..]);
    var rest := w[j..];
    var i :| 0 <= i <= |rest| && Iterated(e, rest[..i]) && Accepting(states, ranges, rank, k, rest[i..]);
    n := j + i;
    Slices(w, j, n);
    assert Member(e, w[..n][..j]) && Iterated(e, w[..n][j..]);
  }

  lemma LoopSplit(states: seq<State>, ranges: seq<Range>, rank: seq<nat>, e: Regex, k: nat, w: Text, j: nat, n: nat)
    requires Ranked(states, rank) && ForwardLinks(ranges) && k < |states|
    requires j <= n <= |w| && Accepting(states, ranges, rank, k, w[n..])
    requires Member(e, w[..n][..j]) && Iterated(e, w[..n][j..])
    ensures OnceThenLoop(states, ranges, rank, e, k, w)
  {
    Slices(w, j, n);
    assert ThroughLoop(states, ranges, rank, e, k, w[j..]);
  }

  lemma LoopUnfolds(states: seq<State>, ranges: seq<Range>, rank: seq<nat>, e: Regex, k: nat, w: Text)
    requires Ranked(states, rank) && ForwardLinks(ranges) && k < |states| && !Nullable(e)
    ensures ThroughLoop(states, ranges, rank, e, k, w) <==>
            Accepting(states, ranges, rank, k, w) || OnceThenLoop(states, ranges, rank, e, k, w)
  {
    NullableIsEmptyMember(e);
    assert w[..0] == [] && w[0..] == w;
    if OnceThenLoop(states, ranges, rank, e, k, w) {
      var n := LoopJoin(states, ranges, rank, e, k, w);
      assert Iterated(e, w[..n]);
    }
    if ThroughLoop(states, ranges, rank, e, k, w) && !Accepting(states, ranges, rank, k, w) {
      var n :| 0 <= n <= |w| && Iterated(e, w[..n]) && Accepting(states, ranges, rank, k, w[n..]);
      var j :| 0 < j <= n && Member(e, w[..n][..j]) && Iterated(e, w[..n][j..]);
      LoopSplit(states, ranges, rank, e, k, w, j, n);
    }
  }

  /** The split state of a loop. The operand reads at least one code point, so the text shrinks. */
  lemma {:induction false} ThompsonLoop(states: seq<State>, ranges: seq<Range>, rank: seq<nat>, e: Regex, lo: nat,
                                        k: nat, w: Text)
    requires Ranked(states, rank) && ForwardLinks(ranges)
    requires k < |states| && LoopsProgress(e) && !Nullable(e)
    requires lo + Size(e) < |states| && Wired(states, ranges, e, lo, lo + Size(e))
    requires states[lo + Size(e)].out == k && states[lo + Size(e)].out1 == Start(e, lo)
    ensures Accepting(states, ranges, rank, lo + Size(e), w) <==> ThroughLoop(states, ranges, rank, e, k, w)
    decreases |w|, e, 1
  {
    var split := lo + Size(e);
    NullableIsEmptyMember(e);
    Thompson(states, ranges, rank, e, lo, split, w);
    forall j | 0 < j <= |w|
      ensures Accepting(states, ranges, rank, split, w[j..]) <==> ThroughLoop(states, ranges, rank, e, k, w[j..])
    {
      ThompsonLoop(states, ranges, rank, e, lo, k, w[j..]);
    }
    assert w[..0] == [];
    ReadsThenSplit(states, ranges, rank, e, split, k, w);
    LoopUnfolds(states, ranges, rank, e, k, w);
  }

  lemma ReadsThenSplit(states: seq<State>, ranges: seq<Range>, rank: seq<nat>, e: Regex, split: nat, k: nat, w: Text)
    requires Ranked(states, rank) && ForwardLinks(ranges) && k < |states| && split < |states|
    requires !Member(e, [])
    requires forall j :: 0 < j <= |w| ==>
      (Accepting(states, ranges, rank, split, w[j..]) <==> ThroughLoop(states, ranges, rank, e, k, w[j..]))
    ensures Through(states, ranges, rank, e, split, w) <==> OnceThenLoop(states, ranges, rank, e, k, w)
  {
    assert w[..0] == [];
  }

  lemma PlusIsOnceThenLoop(states: seq<State>, ranges: seq<Range>, rank: seq<nat>, e: Regex, k: nat, w: Text)
    requires Ranked(states, rank) && ForwardLinks(ranges) && k < |states|
    ensures Through(states, ranges, rank, Many(OneOrMore, e), k, w) <==> OnceThenLoop(states, ranges, rank, e, k, w)
  {
    if OnceThenLoop(states, ranges, rank, e, k, w) {
      var n := LoopJoin(states, ranges, rank, e, k, w);
      assert Member(Many(OneOrMore, e), w[..n]);
    }
    if Through(states, ranges, rank, Many(OneOrMore, e), k, w) {
      var n :| 0 <= n <= |w| && Member(Many(OneOrMore, e), w[..n]) && Accepting(states, ranges, rank, k, w[n..]);
      var j :| 0 <= j <= n && Member(e, w[..n][..j]) && Iterated(e, w[..n][j..]);
      LoopSplit(states, ranges, rank, e, k, w, j, n);
    }
  }

  lemma {:induction false} ThompsonPlus(states: seq<State>, ranges: seq<Range>, rank: seq<nat>, e: Regex, lo: nat,
                                        k: nat, w: Text)
    requires Ranked(states, rank) && ForwardLinks(ranges)
    requires k < |states| && Wired(states, ranges, Many(OneOrMore, e), lo, k) && LoopsProgress(e) && !Nullable(e)
    ensures Accepting(states, ranges, rank, Start(e, lo), w)
            <==> Through(states, ranges, rank, Many(OneOrMore, e), k, w)
    decreases |w|, e, 2
  {
    var split := lo + Size(e);
    Thompson(states, ranges, rank, e, lo, split, w);
    forall j | 0 <= j <= |w|
      ensures Accepting(states, ranges, rank, split, w[j..]) <==> ThroughLoop(states, ranges, rank, e, k, w[j..])
    {
      ThompsonLoop(states, ranges, rank, e, lo, k, w[j..]);
    }
    PlusIsOnceThenLoop(states, ranges, rank, e, k, w);
  }
}
