/** The automaton simulation: state lists that hold each state at most once. */
module RegexSearch {
  import opened RegexLanguage
  import opened RegexNfa
  import opened RegexSemantics
  import opened RegexTermination
  import opened RegexYard
  import opened RegexEngine

  /// ## What a search computes

  /** The texts that a search may find in `w`: from `i` to `j`. */
  ghost predicate Occurs(r: Regex, w: Text, i: nat, j: nat, anchorBegin: bool, anchorEnd: bool) {
    && i <= j <= |w|
    && (anchorBegin ==> i == 0) && (anchorEnd ==> j == |w|)
    && Member(r, w[i..j])
  }

  /** The documented result: some text of the language occurs. */
  ghost predicate Occurrence(r: Regex, w: Text, anchorBegin: bool, anchorEnd: bool) {
    exists i: nat, j: nat :: Occurs(r, w, i, j, anchorBegin, anchorEnd)
  }

  /** What the engine answers: the occurrence has to be non-empty unless `w` is empty. */
  ghost predicate FoundOccurrence(r: Regex, w: Text, anchorBegin: bool, anchorEnd: bool) {
    exists i: nat, j: nat :: Occurs(r, w, i, j, anchorBegin, anchorEnd) && (i < j || w == [])
  }

  /** Of a non-empty text a search misses only occurrences of the empty text. */
  lemma SearchMissesEmpty(r: Regex, w: Text, anchorBegin: bool, anchorEnd: bool)
    ensures FoundOccurrence(r, w, anchorBegin, anchorEnd) ==> Occurrence(r, w, anchorBegin, anchorEnd)
    ensures (Occurrence(r, w, anchorBegin, anchorEnd) && !FoundOccurrence(r, w, anchorBegin, anchorEnd)) <==>
            && w != [] && Nullable(r) && !(anchorBegin && anchorEnd)
            && forall i: nat, j: nat :: Occurs(r, w, i, j, anchorBegin, anchorEnd) ==> i == j
  {
    NullableIsEmptyMember(r);
    if w != [] && Nullable(r) && !(anchorBegin && anchorEnd) {
      var i := if anchorEnd then |w| else 0;
      assert w[i..i] == [];
      assert Occurs(r, w, i, i, anchorBegin, anchorEnd);
    }
    forall i: nat, j: nat | Occurs(r, w, i, j, anchorBegin, anchorEnd) && i == j
      ensures Nullable(r)
    {
      assert w[i..j] == [];
    }
  }

  /** Some one-character text is found at the first or at the last character of a non-empty text. */
  lemma FoundAtEdge(r: Regex, w: Text, anchorBegin: bool, anchorEnd: bool)
    requires w != [] && !(anchorBegin && anchorEnd) && forall c: CodePoint :: Member(r, [c])
    ensures FoundOccurrence(r, w, anchorBegin, anchorEnd)
  {
    var i := if anchorEnd then |w| - 1 else 0;
    assert w[i..i + 1] == [w[i]];
    assert Occurs(r, w, i, i + 1, anchorBegin, anchorEnd);
  }

  /** A one-character text in which only the empty text occurs. */
  lemma MissedAtCharacter(r: Regex, c: CodePoint, anchorBegin: bool, anchorEnd: bool)
    requires Nullable(r) && !(anchorBegin && anchorEnd) && !Member(r, [c])
    ensures Occurrence(r, [c], anchorBegin, anchorEnd) && !FoundOccurrence(r, [c], anchorBegin, anchorEnd)
  {
    NullableIsEmptyMember(r);
    var w: Text := [c];
    var i := if anchorEnd then 1 else 0;
    assert w[i..i] == [];
    assert Occurs(r, w, i, i, anchorBegin, anchorEnd);
    assert w[0..1] == w;
  }

  /** The expressions of which a search finds every occurrence in every text: it is anchored at both
      ends, or they do not match the empty text, or they match every single character. */
  lemma SearchMissesIff(r: Regex, anchorBegin: bool, anchorEnd: bool)
    ensures (forall w: Text ::
               Occurrence(r, w, anchorBegin, anchorEnd) ==> FoundOccurrence(r, w, anchorBegin, anchorEnd))
            <==> (anchorBegin && anchorEnd) || !Nullable(r) || forall c: CodePoint :: Member(r, [c])
  {
    if forall c: CodePoint :: Member(r, [c]) {
      forall w: Text | w != [] && !(anchorBegin && anchorEnd)
        ensures FoundOccurrence(r, w, anchorBegin, anchorEnd)
      {
        FoundAtEdge(r, w, anchorBegin, anchorEnd);
      }
    } else if Nullable(r) && !(anchorBegin && anchorEnd) {
      var c: CodePoint :| !Member(r, [c]);
      MissedAtCharacter(r, c, anchorBegin, anchorEnd);
    }
    forall w: Text { SearchMissesEmpty(r, w, anchorBegin, anchorEnd); }
  }

  /** `a*` is not found in `b`, although the empty text occurs there. */
  lemma SearchMissesExample()
    ensures var r, w := Many(ZeroOrMore, Symbol(Exact('a' as int))), ['b' as int];
            Occurrence(r, w, false, false) && !FoundOccurrence(r, w, false, false)
  {
    var a := Symbol(Exact('a' as int));
    var r, w: Text := Many(ZeroOrMore, a), ['b' as int];
    assert w[0..0] == [];
    assert Occurs(r, w, 0, 0, false, false);
    assert !Member(r, w) by {
      forall i | 0 < i <= |w| ensures !Member(a, w[..i]) { assert w[..i] == w; }
    }
    assert w[0..1] == w;
    assert forall i: nat, j: nat :: Occurs(r, w, i, j, false, false) && i < j ==> i == 0 && j == 1;
  }

  /// ## Closures

  /** The states reached from `i` along splits that are not themselves splits. */
  ghost function Closure(states: seq<State>, rank: seq<nat>, i: nat): (c: set<nat>)
    requires Ranked(states, rank) && i < |states|
    ensures c != {}
    ensures forall q :: q in c ==> q < |states| && !IsSplit(states[q])
    decreases rank[i]
  {
    assert RankedState(states, rank, i);
    if IsSplit(states[i]) then
      Closure(states, rank, states[i].out) + Closure(states, rank, states[i].out1)
    else {i}
  }

  lemma {:induction false} ClosureAccepts(states: seq<State>, ranges: seq<Range>, rank: seq<nat>, i: nat, w: Text)
    requires Ranked(states, rank) && ForwardLinks(ranges) && i < |states|
    ensures Accepting(states, ranges, rank, i, w) <==>
            exists q: nat :: q in Closure(states, rank, i) && Accepting(states, ranges, rank, q, w)
    decreases rank[i]
  {
    assert RankedState(states, rank, i);
    if IsSplit(states[i]) {
      ClosureAccepts(states, ranges, rank, states[i].out, w);
      ClosureAccepts(states, ranges, rank, states[i].out1, w);
    }
  }

  ghost predicate Matches(states: seq<State>, rank: seq<nat>, i: nat)
    requires Ranked(states, rank) && i < |states|
  {
    exists q: nat :: q in Closure(states, rank, i) && states[q].out == INVALID
  }

  lemma MatchesIffAcceptsEmpty(states: seq<State>, ranges: seq<Range>, rank: seq<nat>, i: nat)
    requires Ranked(states, rank) && ForwardLinks(ranges) && i < |states|
    ensures Matches(states, rank, i) <==> Accepting(states, ranges, rank, i, [])
  {
    ClosureAccepts(states, ranges, rank, i, []);
    if Matches(states, rank, i) {
      var q: nat :| q in Closure(states, rank, i) && states[q].out == INVALID;
      assert q in Closure(states, rank, i) && Accepting(states, ranges, rank, q, []);
      assert Accepting(states, ranges, rank, i, []);
    }
    if Accepting(states, ranges, rank, i, []) {
      var q: nat :| q in Closure(states, rank, i) && Accepting(states, ranges, rank, q, []);
      assert q in Closure(states, rank, i) && states[q].out == INVALID;
      assert Matches(states, rank, i);
    }
  }

  /** Distinct indices fit in the space reserved for a state list. */
  lemma DistinctFit(l: seq<nat>, n: nat)
    requires Distinct(l) && forall i :: 0 <= i < |l| ==> l[i] < n
    ensures |l| <= n
  {
    DistinctCount(l);
    SubsetSize(Elements(l), Below(n));
  }

  ghost function Elements(l: seq<nat>): set<nat> {
    set q | q in l
  }

  ghost function Below(n: nat): (s: set<nat>)
    ensures |s| == n && forall i: nat :: i in s <==> i < n
  {
    if n == 0 then {} else Below(n - 1) + {n - 1}
  }

  lemma {:induction false} DistinctCount(l: seq<nat>)
    requires Distinct(l)
    ensures |Elements(l)| == |l|
  {
    if l != [] {
      var n := |l| - 1;
      DistinctCount(l[..n]);
      assert Elements(l) == Elements(l[..n]) + {l[n]};
    }
  }

  lemma {:induction false} SubsetSize(a: set<nat>, b: set<nat>)
    requires a <= b
    ensures |a| <= |b|
  {
    if a != {} {
      var x :| x in a;
      SubsetSize(a - {x}, b - {x});
    }
  }

  /// ## Steps of the simulation

  ghost predicate Live(states: seq<State>, ranges: seq<Range>, rank: seq<nat>, l: seq<nat>, v: Text)
    requires Ranked(states, rank) && ForwardLinks(ranges) && InStates(states, l)
  {
    exists k :: 0 <= k < |l| && Accepting(states, ranges, rank, l[k], v)
  }

  /** The list holds states other than splits. */
  ghost predicate InStates(states: seq<State>, l: seq<nat>) {
    forall k :: 0 <= k < |l| ==> l[k] < |states| && !IsSplit(states[l[k]])
  }

  /** State `i` reads `c`. */
  ghost predicate Reads(states: seq<State>, ranges: seq<Range>, i: nat, c: CodePoint)
    requires i < |states| && ForwardLinks(ranges)
  {
    states[i].out != INVALID && Steps(ranges, states[i], c)
  }

  /** `q` is reached from one of the states in `l` by reading `c`. */
  ghost predicate Reached(states: seq<State>, ranges: seq<Range>, rank: seq<nat>, l: seq<nat>, c: CodePoint, q: nat)
    requires Ranked(states, rank) && ForwardLinks(ranges) && InStates(states, l)
  {
    exists k :: 0 <= k < |l| && ReachedFrom(states, ranges, rank, l[k], c, q)
  }

  ghost predicate ReachedFrom(states: seq<State>, ranges: seq<Range>, rank: seq<nat>, i: nat, c: CodePoint, q: nat)
    requires Ranked(states, rank) && ForwardLinks(ranges) && i < |states| && !IsSplit(states[i])
  {
    assert RankedState(states, rank, i);
    Reads(states, ranges, i, c) && q in Closure(states, rank, states[i].out)
  }

  lemma AcceptsAfterRead(states: seq<State>, ranges: seq<Range>, rank: seq<nat>, i: nat, c: CodePoint, v: Text)
    requires Ranked(states, rank) && ForwardLinks(ranges) && i < |states| && !IsSplit(states[i])
    ensures Accepting(states, ranges, rank, i, [c] + v) <==>
            exists q: nat ::
              ReachedFrom(states, ranges, rank, i, c, q) && q < |states| && Accepting(states, ranges, rank, q, v)
  {
    assert RankedState(states, rank, i);
    assert ([c] + v)[1..] == v;
    if states[i].out != INVALID {
      ClosureAccepts(states, ranges, rank, states[i].out, v);
    }
  }

  /** `l'` is what one turn of the simulation makes of `l`. */
  ghost predicate Advanced(states: seq<State>, ranges: seq<Range>, rank: seq<nat>, l: seq<nat>, c: CodePoint,
                           l': seq<nat>, root: nat, restart: bool)
    requires Ranked(states, rank) && ForwardLinks(ranges) && root < |states|
  {
    && InStates(states, l) && InStates(states, l')
    && forall q: nat :: q in l' <==>
         Reached(states, ranges, rank, l, c, q) || (restart && q in Closure(states, rank, root))
  }

  lemma LiveBackward(states: seq<State>, ranges: seq<Range>, rank: seq<nat>, l: seq<nat>, c: CodePoint, l': seq<nat>,
                     root: nat, restart: bool, v: Text)
    requires Ranked(states, rank) && ForwardLinks(ranges) && root < |states|
    requires Advanced(states, ranges, rank, l, c, l', root, restart)
    requires Live(states, ranges, rank, l', v)
    ensures Live(states, ranges, rank, l, [c] + v) || (restart && Accepting(states, ranges, rank, root, v))
  {
    var k :| 0 <= k < |l'| && Accepting(states, ranges, rank, l'[k], v);
    var q := l'[k];
    assert q in l';
    if Reached(states, ranges, rank, l, c, q) {
      var j :| 0 <= j < |l| && ReachedFrom(states, ranges, rank, l[j], c, q);
      AcceptsAfterRead(states, ranges, rank, l[j], c, v);
    } else {
      assert restart && q in Closure(states, rank, root) && Accepting(states, ranges, rank, q, v);
      ClosureAccepts(states, ranges, rank, root, v);
    }
  }

  lemma LiveForward(states: seq<State>, ranges: seq<Range>, rank: seq<nat>, l: seq<nat>, c: CodePoint, l': seq<nat>,
                    root: nat, restart: bool, v: Text)
    requires Ranked(states, rank) && ForwardLinks(ranges) && root < |states|
    requires Advanced(states, ranges, rank, l, c, l', root, restart)
    requires Live(states, ranges, rank, l, [c] + v)
    ensures Live(states, ranges, rank, l', v)
  {
    var j :| 0 <= j < |l| && Accepting(states, ranges, rank, l[j], [c] + v);
    AcceptsAfterRead(states, ranges, rank, l[j], c, v);
    var q: nat :| ReachedFrom(states, ranges, rank, l[j], c, q) && q < |states|
        && Accepting(states, ranges, rank, q, v);
    assert Reached(states, ranges, rank, l, c, q);
    assert q in l';
    var k :| 0 <= k < |l'| && l'[k] == q;
  }

  lemma LiveRestart(states: seq<State>, ranges: seq<Range>, rank: seq<nat>, l: seq<nat>, c: CodePoint, l': seq<nat>,
                    root: nat, v: Text)
    requires Ranked(states, rank) && ForwardLinks(ranges) && root < |states|
    requires Advanced(states, ranges, rank, l, c, l', root, true)
    requires Accepting(states, ranges, rank, root, v)
    ensures Live(states, ranges, rank, l', v)
  {
    ClosureAccepts(states, ranges, rank, root, v);
    var q: nat :| q in Closure(states, rank, root) && Accepting(states, ranges, rank, q, v);
    assert q in l';
    var k :| 0 <= k < |l'| && l'[k] == q;
  }

  /** One code point: the new list accepts `v` iff the old one accepts `c` before `v`, or a new
      attempt was started and accepts `v`. */
  lemma LiveStep(states: seq<State>, ranges: seq<Range>, rank: seq<nat>, l: seq<nat>, c: CodePoint, l': seq<nat>,
                 root: nat, restart: bool, v: Text)
    requires Ranked(states, rank) && ForwardLinks(ranges) && root < |states|
    requires Advanced(states, ranges, rank, l, c, l', root, restart)
    ensures Live(states, ranges, rank, l', v) <==>
            Live(states, ranges, rank, l, [c] + v) || (restart && Accepting(states, ranges, rank, root, v))
  {
    if Live(states, ranges, rank, l', v) {
      LiveBackward(states, ranges, rank, l, c, l', root, restart, v);
    }
    if Live(states, ranges, rank, l, [c] + v) {
      LiveForward(states, ranges, rank, l, c, l', root, restart, v);
    }
    if restart && Accepting(states, ranges, rank, root, v) {
      LiveRestart(states, ranges, rank, l, c, l', root, v);
    }
  }

  lemma LiveSnoc(states: seq<State>, ranges: seq<Range>, rank: seq<nat>, l: seq<nat>, i: nat, v: Text)
    requires Ranked(states, rank) && ForwardLinks(ranges) && InStates(states, l + [i])
    ensures InStates(states, l) && i < |states|
    ensures Live(states, ranges, rank, l + [i], v) <==>
            Live(states, ranges, rank, l, v) || Accepting(states, ranges, rank, i, v)
  {
    assert forall k :: 0 <= k < |l| ==> (l + [i])[k] == l[k];
    assert (l + [i])[|l|] == i;
    if Live(states, ranges, rank, l, v) {
      var k :| 0 <= k < |l| && Accepting(states, ranges, rank, l[k], v);
      assert Accepting(states, ranges, rank, (l + [i])[k], v);
    }
  }

  lemma ReachedSnoc(states: seq<State>, ranges: seq<Range>, rank: seq<nat>, l: seq<nat>, i: nat, c: CodePoint, q: nat)
    requires Ranked(states, rank) && ForwardLinks(ranges) && InStates(states, l + [i])
    ensures InStates(states, l) && i < |states| && !IsSplit(states[i])
    ensures Reached(states, ranges, rank, l + [i], c, q) <==>
            Reached(states, ranges, rank, l, c, q) || ReachedFrom(states, ranges, rank, i, c, q)
  {
    assert forall k :: 0 <= k < |l| ==> (l + [i])[k] == l[k];
    assert (l + [i])[|l|] == i;
    if Reached(states, ranges, rank, l, c, q) {
      var k :| 0 <= k < |l| && ReachedFrom(states, ranges, rank, l[k], c, q);
      assert ReachedFrom(states, ranges, rank, (l + [i])[k], c, q);
    }
  }

  lemma AdvancedSnoc(states: seq<State>, ranges: seq<Range>, rank: seq<nat>, l: seq<nat>, c: CodePoint, l': seq<nat>,
                     root: nat, restart: bool, i: nat, l'': seq<nat>)
    requires Ranked(states, rank) && ForwardLinks(ranges) && root < |states|
    requires Advanced(states, ranges, rank, l, c, l', root, restart && l != [])
    requires InStates(states, l + [i]) && InStates(states, l'') && i < |states| && !IsSplit(states[i])
    requires forall q: nat :: q in l'' <==>
      q in l' || ReachedFrom(states, ranges, rank, i, c, q) || (restart && q in Closure(states, rank, root))
    ensures Advanced(states, ranges, rank, l + [i], c, l'', root, restart)
  {
    forall q: nat
      ensures q in l'' <==>
        Reached(states, ranges, rank, l + [i], c, q) || (restart && q in Closure(states, rank, root))
    {
      ReachedSnoc(states, ranges, rank, l, i, c, q);
    }
  }

  /** Reading `c` in state `i` ends a text of the language iff the state accepts just `c`. */
  lemma MatchesAfterRead(states: seq<State>, ranges: seq<Range>, rank: seq<nat>, i: nat, c: CodePoint)
    requires Ranked(states, rank) && ForwardLinks(ranges) && i < |states| && !IsSplit(states[i])
    ensures RankedState(states, rank, i)
    ensures Accepting(states, ranges, rank, i, [c]) <==>
            Reads(states, ranges, i, c) && Matches(states, rank, states[i].out)
  {
    assert RankedState(states, rank, i);
    if states[i].out != INVALID {
      MatchesIffAcceptsEmpty(states, ranges, rank, states[i].out);
      assert [c][1..] == [];
    }
  }

  /// ## Attempts over a text

  /** Some attempt begun at or before `n` would succeed on the text up to `n` followed by `v`. */
  ghost predicate Attempt(r: Regex, w: Text, n: nat, anchorBegin: bool, v: Text)
    requires n <= |w|
  {
    exists p: nat :: p <= n && (anchorBegin ==> p == 0) && Member(r, w[p..n] + v)
  }

  /** A text that ends at `n` has been found; at the start of the text it is the empty one. */
  ghost predicate EndsAt(r: Regex, w: Text, n: nat, anchorBegin: bool)
    requires n <= |w|
  {
    exists p: nat :: p <= n && (p < n || n == 0) && (anchorBegin ==> p == 0) && Member(r, w[p..n])
  }

  lemma AttemptStep(r: Regex, w: Text, n: nat, anchorBegin: bool, v: Text)
    requires n < |w|
    ensures Attempt(r, w, n + 1, anchorBegin, v) <==>
            Attempt(r, w, n, anchorBegin, [w[n]] + v) || (!anchorBegin && Member(r, v))
  {
    var cv := [w[n]] + v;
    forall p: nat | p <= n
      ensures w[p..n + 1] + v == w[p..n] + cv
    {
    }
    assert w[n + 1..n + 1] + v == v;
    if Attempt(r, w, n + 1, anchorBegin, v) {
      var p: nat :| p <= n + 1 && (anchorBegin ==> p == 0) && Member(r, w[p..n + 1] + v);
      if p <= n {
        assert Member(r, w[p..n] + cv);
      }
    }
    if Attempt(r, w, n, anchorBegin, cv) {
      var p: nat :| p <= n && (anchorBegin ==> p == 0) && Member(r, w[p..n] + cv);
      assert Member(r, w[p..n + 1] + v);
    }
  }

  lemma EndsStep(r: Regex, w: Text, n: nat, anchorBegin: bool)
    requires n < |w|
    ensures EndsAt(r, w, n + 1, anchorBegin) <==> Attempt(r, w, n, anchorBegin, [w[n]])
  {
    forall p: nat | p <= n
      ensures w[p..n + 1] == w[p..n] + [w[n]]
    {
    }
    if Attempt(r, w, n, anchorBegin, [w[n]]) {
      var p: nat :| p <= n && (anchorBegin ==> p == 0) && Member(r, w[p..n] + [w[n]]);
      assert Member(r, w[p..n + 1]);
    }
    if EndsAt(r, w, n + 1, anchorBegin) {
      var p: nat :| p <= n + 1 && p < n + 1 && (anchorBegin ==> p == 0) && Member(r, w[p..n + 1]);
      assert Member(r, w[p..n] + [w[n]]);
    }
  }

  lemma AttemptAtEnd(r: Regex, w: Text, n: nat, anchorBegin: bool)
    requires n <= |w|
    ensures EndsAt(r, w, n, anchorBegin) ==> Attempt(r, w, n, anchorBegin, [])
  {
    forall p: nat | p <= n
      ensures w[p..n] + [] == w[p..n]
    {
    }
  }

  lemma AttemptAtStart(r: Regex, w: Text, anchorBegin: bool, v: Text)
    ensures Attempt(r, w, 0, anchorBegin, v) <==> Member(r, v)
    ensures EndsAt(r, w, 0, anchorBegin) <==> Member(r, [])
  {
    assert w[0..0] + v == v && w[0..0] == [];
  }

  /** Reading on from `n` finds exactly what some attempt pending at `n` accepts. */
  lemma AttemptOfLater(r: Regex, w: Text, n: nat, m: nat, anchorBegin: bool)
    requires n <= m <= |w| && anchorBegin
    ensures Member(r, w[0..m]) ==> Attempt(r, w, n, anchorBegin, w[n..m])
  {
    assert w[0..n] + w[n..m] == w[0..m];
  }
}
