/** The search object: simulates the compiled automaton over a decoded text. */
module RegexSearching {
  import opened RegexLanguage
  import opened RegexNfa
  import opened RegexSemantics
  import opened RegexTermination
  import opened RegexYard
  import opened RegexEngine
  import opened RegexSearch

  class GenericRegexSearch {
    const regex: GenericRegex
    /** One flag per state, shared by the two lists: set while the state is in the list being built. */
    const stateSet: array<bool>
    var state0: seq<nat>
    var state1: seq<nat>
    ghost const compiled: Compiled

    ghost predicate Valid()
      reads this, regex
    {
      && regex.IsCompiled(compiled) && LoopsProgress(compiled.regex)
      && stateSet.Length == |regex.states|
    }

    constructor (regex: GenericRegex, ghost compiled: Compiled)
      requires regex.IsCompiled(compiled) && LoopsProgress(compiled.regex)
      ensures Valid() && this.regex == regex && this.compiled == compiled && fresh(stateSet)
    {
      this.regex := regex;
      this.compiled := compiled;
      stateSet := new bool[|regex.states|];
      state0, state1 := [], [];
    }

    ghost function Rank(): (rank: seq<nat>)
      requires Valid()
      reads this, regex
      ensures Ranked(regex.states, rank)
    {
      AutomatonRanked(regex.states, regex.ranges, compiled.regex, regex.root);
      Ranks(compiled.regex)
    }

    /** The flags say which states are in `l`, and no state is in it twice. */
    ghost predicate Flagged(l: seq<nat>)
      reads this, regex, stateSet
    {
      && stateSet.Length == |regex.states|
      && InStates(regex.states, l) && Distinct(l)
      && forall i :: 0 <= i < stateSet.Length ==> (stateSet[i] <==> i in l)
    }

    method ClearFlags()
      modifies stateSet
      ensures forall i :: 0 <= i < stateSet.Length ==> !stateSet[i]
    {
      var i := 0;
      while i < stateSet.Length
        invariant 0 <= i <= stateSet.Length
        invariant forall j :: 0 <= j < i ==> !stateSet[j]
      {
        stateSet[i] := false;
        i := i + 1;
      }
    }

    /** Adds the closure of `index` to `l`; there is room for every state the list can get. */
    method AddState(l: seq<nat>, index: int) returns (matched: bool, l': seq<nat>)
      requires Valid() && Flagged(l) && 0 <= index < |regex.states|
      modifies stateSet
      ensures Flagged(l') && |l'| <= |regex.states|
      ensures forall q: nat :: q in l' <==> q in l || q in Closure(regex.states, Rank(), index)
      ensures matched <==> Matches(regex.states, Rank(), index)
      decreases Rank()[index]
    {
      assert RankedState(regex.states, Rank(), index);
      var s := regex.states[index];
      l' := l;
      if s.out1 != INVALID {
        var matched1, l1 := AddState(l, s.out);
        var matched2, l2 := AddState(l1, s.out1);
        matched, l' := matched2 || matched1, l2;
      } else {
        if !stateSet[index] {
          DistinctFit(l + [index], |regex.states|);
          assert |l| < |regex.states|;
          stateSet[index] := true;
          l' := l + [index];
        }
        matched := s.out == INVALID;
      }
      DistinctFit(l', |regex.states|);
    }

    method MatchRange(rangeIndex: nat, codepoint: CodePoint) returns (yes: bool)
      requires Valid() && rangeIndex < |regex.ranges|
      ensures yes <==> RangeMatches(regex.ranges, rangeIndex, codepoint)
    {
      var inside := regex.ranges[rangeIndex].start < RANGE_NEGATION_FLAG;
      var i: int := rangeIndex;
      while i != INVALID
        invariant i == INVALID || 0 <= i < |regex.ranges|
        invariant InRangeList(regex.ranges, rangeIndex, codepoint) <==> InRangeList(regex.ranges, i, codepoint)
        decreases if i == INVALID then 0 else |regex.ranges| - i
      {
        var r := regex.ranges[i];
        if Covers(r, codepoint) {
          return inside;
        }
        i := r.next;
      }
      yes := !inside;
    }

    /** Whether state `i` reads the code point. The matching state has code point 0 and never does. */
    method StateReads(i: nat, c: CodePoint) returns (reading: bool)
      requires Valid() && i < |regex.states|
      requires regex.states[i].out == INVALID ==> regex.states[i].codepoint == 0
      ensures reading <==> Reads(regex.states, regex.ranges, i, c)
    {
      var sr := regex.states[i];
      reading := sr.codepoint == c || sr.codepoint == ANY_CHARACTER_CLASS;
      if !reading && sr.codepoint == RANGE_CHARACTER_CLASS && 0 <= sr.rangeStart < |regex.ranges| {
        reading := MatchRange(sr.rangeStart, c);
      }
    }

    ghost predicate Turned(l: seq<nat>, c: CodePoint, l': seq<nat>, restart: bool)
      requires Valid()
      reads this, regex
    {
      Advanced(regex.states, regex.ranges, Rank(), l, c, l', regex.root, restart)
    }

    /** Adds what state `s` reaches by reading `c`, if it does. */
    method FollowState(next: seq<nat>, s: nat, c: CodePoint) returns (matched: bool, next': seq<nat>)
      requires Valid() && Flagged(next) && s < |regex.states| && !IsSplit(regex.states[s])
      modifies stateSet
      ensures Flagged(next')
      ensures forall q: nat :: q in next' <==>
        q in next || ReachedFrom(regex.states, regex.ranges, Rank(), s, c, q)
      ensures matched <==> Accepting(regex.states, regex.ranges, Rank(), s, [c])
    {
      MatchesAfterRead(regex.states, regex.ranges, Rank(), s, c);
      OnlyMatchingStateEnds(s);
      var reading := StateReads(s, c);
      if reading {
        matched, next' := AddState(next, regex.states[s].out);
      } else {
        matched, next' := false, next;
      }
    }

    /** Without an anchor at the beginning, a match may also begin behind the character. */
    method Restart(next: seq<nat>, anchorBegin: bool) returns (next': seq<nat>)
      requires Valid() && Flagged(next)
      modifies stateSet
      ensures Flagged(next')
      ensures forall q: nat :: q in next' <==>
                q in next || (!anchorBegin && q in Closure(regex.states, Rank(), regex.root))
    {
      next' := next;
      if !anchorBegin {
        var _, l := AddState(next, regex.root);
        next' := l;
      }
    }

    /** One code point: `state1` becomes the list of the states reached from `state0`. */
    method Advance(c: CodePoint, anchorBegin: bool, anchorEnd: bool) returns (matched: bool, done: bool)
      requires Valid() && InStates(regex.states, state0)
      modifies this`state1, stateSet
      ensures done ==> !anchorEnd && Live(regex.states, regex.ranges, Rank(), state0, [c])
      ensures !done ==> Turned(state0, c, state1, !anchorBegin && state0 != [])
      ensures !done ==> (matched <==> Live(regex.states, regex.ranges, Rank(), state0, [c]))
      ensures !done ==> anchorEnd || !matched
    {
      ClearFlags();
      state1 := [];
      matched, done := false, false;
      var k := 0;
      while k < |state0|
        invariant 0 <= k <= |state0| && Flagged(state1) && !done
        invariant Turned(state0[..k], c, state1, !anchorBegin && state0[..k] != [])
        invariant matched <==> Live(regex.states, regex.ranges, Rank(), state0[..k], [c])
        invariant anchorEnd || !matched
      {
        var s := state0[k];
        assert state0[..k + 1] == state0[..k] + [s];
        ghost var before := state1;
        LiveSnoc(regex.states, regex.ranges, Rank(), state0[..k], s, [c]);
        var m, l := FollowState(state1, s, c);
        state1 := l;
        matched := m || matched;
        if !anchorEnd && matched {
          LivePrefix(state0, k + 1, [c]);
          done := true;
          return;
        }
        state1 := Restart(state1, anchorBegin);
        AdvancedSnoc(regex.states, regex.ranges, Rank(), state0[..k], c, before, regex.root, !anchorBegin, s, state1);
        k := k + 1;
      }
      assert state0[..k] == state0;
    }

    lemma LivePrefix(l: seq<nat>, k: nat, v: Text)
      requires Valid() && InStates(regex.states, l) && k <= |l|
      requires Live(regex.states, regex.ranges, Rank(), l[..k], v)
      ensures Live(regex.states, regex.ranges, Rank(), l, v)
    {
      var j :| 0 <= j < |l[..k]| && Accepting(regex.states, regex.ranges, Rank(), l[..k][j], v);
      assert l[..k][j] == l[j];
    }

    lemma OnlyMatchingStateEnds(i: nat)
      requires Valid() && i < |regex.states| && !IsSplit(regex.states[i])
      ensures regex.states[i].out == INVALID ==> regex.states[i].codepoint == 0
    {
      FragmentLinks(regex.states, regex.ranges, compiled.regex, 0, Size(compiled.regex), i);
    }

    /** The list accepts what the pending attempts do. */
    ghost predicate Tracks(l: seq<nat>, w: Text, n: nat, anchorBegin: bool)
      requires Valid() && n <= |w|
      reads this, regex
    {
      && InStates(regex.states, l)
      && forall v :: Live(regex.states, regex.ranges, Rank(), l, v) <==> Attempt(compiled.regex, w, n, anchorBegin, v)
    }

    lemma TracksRoot(l: seq<nat>, w: Text, anchorBegin: bool)
      requires Valid() && InStates(regex.states, l)
      requires forall q: nat :: q in l <==> q in Closure(regex.states, Rank(), regex.root)
      ensures Tracks(l, w, 0, anchorBegin) && l != []
    {
      forall v
        ensures Live(regex.states, regex.ranges, Rank(), l, v) <==> Attempt(compiled.regex, w, 0, anchorBegin, v)
      {
        AutomatonAccepts(regex.states, regex.ranges, compiled.regex, regex.root, v);
        ClosureAccepts(regex.states, regex.ranges, Rank(), regex.root, v);
        AttemptAtStart(compiled.regex, w, anchorBegin, v);
        if Accepting(regex.states, regex.ranges, Rank(), regex.root, v) {
          var q: nat :| q in Closure(regex.states, Rank(), regex.root)
              && Accepting(regex.states, regex.ranges, Rank(), q, v);
          assert q in l;
          var k :| 0 <= k < |l| && l[k] == q;
        }
        if Live(regex.states, regex.ranges, Rank(), l, v) {
          var k :| 0 <= k < |l| && Accepting(regex.states, regex.ranges, Rank(), l[k], v);
          assert l[k] in l;
          assert l[k] in Closure(regex.states, Rank(), regex.root)
                 && Accepting(regex.states, regex.ranges, Rank(), l[k], v);
        }
      }
      var q :| q in Closure(regex.states, Rank(), regex.root);
      assert q in l;
    }

    lemma TracksTurn(l: seq<nat>, w: Text, n: nat, anchorBegin: bool, l': seq<nat>)
      requires Valid() && n < |w| && Tracks(l, w, n, anchorBegin)
      requires Turned(l, w[n], l', !anchorBegin)
      ensures Tracks(l', w, n + 1, anchorBegin)
      ensures !anchorBegin ==> l' != []
    {
      forall v
        ensures Live(regex.states, regex.ranges, Rank(), l', v) <==> Attempt(compiled.regex, w, n + 1, anchorBegin, v)
      {
        LiveStep(regex.states, regex.ranges, Rank(), l, w[n], l', regex.root, !anchorBegin, v);
        AttemptStep(compiled.regex, w, n, anchorBegin, v);
        AutomatonAccepts(regex.states, regex.ranges, compiled.regex, regex.root, v);
      }
      if !anchorBegin {
        var q :| q in Closure(regex.states, Rank(), regex.root);
        assert q in l';
      }
    }

    /** No attempt is pending, so nothing can be found from here on. */
    lemma NothingPending(w: Text, n: nat, m: nat)
      requires Valid() && n <= m <= |w| && Tracks([], w, n, true)
      ensures !Member(compiled.regex, w[0..m]) && !EndsAt(compiled.regex, w, n, true)
    {
      AttemptOfLater(compiled.regex, w, n, m, true);
      AttemptAtEnd(compiled.regex, w, n, true);
    }

    /** Nothing has been found up to `n`, where a text found has to end at 1 or later. */
    ghost predicate NoneBefore(w: Text, n: nat, anchorBegin: bool)
      reads this
    {
      forall m: nat :: 1 <= m <= n && m <= |w| ==> !EndsAt(compiled.regex, w, m, anchorBegin)
    }

    method SearchWithAnchoring(ds: DecodedStream, anchorBegin: bool, anchorEnd: bool) returns (found: bool)
      requires Valid()
      modifies this`state0, this`state1, stateSet, ds
      ensures found <==> FoundOccurrence(compiled.regex, old(ds.rest), anchorBegin, anchorEnd)
    {
      ghost var w, r := ds.rest, compiled.regex;
      ClearFlags();
      var matched, l := AddState([], regex.root);
      state0 := l;
      TracksRoot(state0, w, anchorBegin);
      MatchesIffAcceptsEmpty(regex.states, regex.ranges, Rank(), regex.root);
      AutomatonAccepts(regex.states, regex.ranges, r, regex.root, []);
      AttemptAtStart(r, w, anchorBegin, []);
      ghost var n := 0;
      while state0 != [] && ds.Peek() != 0
        invariant 0 <= n <= |w| && ds.rest == w[n..]
        invariant Tracks(state0, w, n, anchorBegin)
        invariant matched <==> EndsAt(r, w, n, anchorBegin)
        invariant state0 == [] ==> anchorBegin
        invariant !anchorEnd ==> NoneBefore(w, n, anchorBegin)
        decreases |ds.rest|
      {
        EndsStep(r, w, n, anchorBegin);
        var codepoint := ds.Take();
        ghost var before := state0;
        var done;
        matched, done := Advance(codepoint, anchorBegin, anchorEnd);
        if done {
          FoundAt(w, n + 1, anchorBegin);
          return true;
        }
        TracksTurn(before, w, n, anchorBegin, state1);
        state0, state1 := state1, state0;
        n := n + 1;
      }
      if n < |w| {
        NothingFound(w, n, anchorEnd);
      } else if anchorEnd {
        FoundAtEnd(w, anchorBegin);
      } else {
        FoundNowhere(w, anchorBegin);
      }
      found := matched;
    }

    lemma FoundAt(w: Text, n: nat, anchorBegin: bool)
      requires 1 <= n <= |w| && EndsAt(compiled.regex, w, n, anchorBegin)
      ensures FoundOccurrence(compiled.regex, w, anchorBegin, false)
    {
      var p: nat :| p <= n && (p < n || n == 0) && (anchorBegin ==> p == 0) && Member(compiled.regex, w[p..n]);
      assert Occurs(compiled.regex, w, p, n, anchorBegin, false);
    }

    lemma FoundAtEnd(w: Text, anchorBegin: bool)
      ensures FoundOccurrence(compiled.regex, w, anchorBegin, true) <==> EndsAt(compiled.regex, w, |w|, anchorBegin)
    {
      var r := compiled.regex;
      if EndsAt(r, w, |w|, anchorBegin) {
        var p: nat :| p <= |w| && (p < |w| || |w| == 0) && (anchorBegin ==> p == 0) && Member(r, w[p..|w|]);
        assert Occurs(r, w, p, |w|, anchorBegin, true);
      }
    }

    lemma FoundNowhere(w: Text, anchorBegin: bool)
      requires NoneBefore(w, |w|, anchorBegin)
      ensures FoundOccurrence(compiled.regex, w, anchorBegin, false) <==> EndsAt(compiled.regex, w, |w|, anchorBegin)
    {
      var r := compiled.regex;
      if FoundOccurrence(r, w, anchorBegin, false) {
        var i: nat, j: nat :| Occurs(r, w, i, j, anchorBegin, false) && (i < j || w == []);
        if j > 0 {
          assert EndsAt(r, w, j, anchorBegin);
        }
      }
      if EndsAt(r, w, |w|, anchorBegin) {
        var p: nat :| p <= |w| && (p < |w| || |w| == 0) && (anchorBegin ==> p == 0) && Member(r, w[p..|w|]);
        assert Occurs(r, w, p, |w|, anchorBegin, false);
      }
    }

    lemma NothingFound(w: Text, n: nat, anchorEnd: bool)
      requires Valid() && n < |w| && Tracks([], w, n, true)
      requires !anchorEnd ==> NoneBefore(w, n, true)
      ensures !FoundOccurrence(compiled.regex, w, true, anchorEnd)
      ensures !EndsAt(compiled.regex, w, n, true)
    {
      var r := compiled.regex;
      NothingPending(w, n, n);
      forall i: nat, j: nat | Occurs(r, w, i, j, true, anchorEnd) && (i < j || w == [])
        ensures false
      {
        if j >= n {
          NothingPending(w, n, j);
        } else {
          assert EndsAt(r, w, j, true);
        }
      }
    }

    method Match(ds: DecodedStream) returns (found: bool)
      requires Valid()
      modifies this`state0, this`state1, stateSet, ds
      ensures found <==> Member(compiled.regex, old(ds.rest))
    {
      ghost var w := ds.rest;
      assert w[0..|w|] == w;
      found := SearchWithAnchoring(ds, true, true);
      assert FoundOccurrence(compiled.regex, w, true, true) <==> Occurs(compiled.regex, w, 0, |w|, true, true);
    }

    method Search(ds: DecodedStream) returns (found: bool)
      requires Valid()
      modifies this`state0, this`state1, stateSet, ds
      ensures found <==> FoundOccurrence(compiled.regex, old(ds.rest), compiled.anchorBegin, compiled.anchorEnd)
    {
      found := SearchWithAnchoring(ds, regex.anchorBegin, regex.anchorEnd);
    }
  }
}
