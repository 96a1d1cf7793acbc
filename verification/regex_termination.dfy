/** When following links without reading terminates.

  `AddState` recurses along split states. The recursion is well founded exactly when no `*` or `+`
  is applied to an operand that matches the empty text. */
module RegexTermination {
  import opened RegexLanguage
  import opened RegexNfa
  import opened RegexSemantics

  function Max(a: nat, b: nat): nat {
    if a < b then b else a
  }

  /** An upper bound on the number of splits followed from state `i` of the fragment for `r`, if
      the continuation has rank `k`. */
  function Rank(r: Regex, lo: nat, i: nat, k: nat): nat
    requires lo <= i < lo + Size(r)
    decreases r, 0
  {
    match r
    case Symbol(_) => 0
    case Cat(p, q) =>
      if i < lo + Size(p) then Rank(p, lo, i, StartRank(q, lo + Size(p), k)) else Rank(q, lo + Size(p), i, k)
    case Alt(p, q) =>
      if i < lo + Size(p) then Rank(p, lo, i, k)
      else if i < lo + Size(p) + Size(q) then Rank(q, lo + Size(p), i, k)
      else 1 + Max(StartRank(p, lo, k), StartRank(q, lo + Size(p), k))
    case Many(op, e) =>
      var split := SplitRank(op, e, lo, k);
      if i == lo + Size(e) then split else Rank(e, lo, i, if op == ZeroOrOne then k else split)
  }

  function StartRank(r: Regex, lo: nat, k: nat): nat
    decreases r, 1
  {
    Rank(r, lo, Start(r, lo), k)
  }

  function SplitRank(op: Postfix, e: Regex, lo: nat, k: nat): nat
    decreases e, 2
  {
    1 + Max(k, StartRank(e, lo, if op == ZeroOrOne then k else 0))
  }

  /** A fragment that must read something is entered with a rank that its continuation cannot affect. */
  lemma {:induction false} StartRankConstant(r: Regex, lo: nat, k: nat, k': nat)
    requires !Nullable(r)
    ensures StartRank(r, lo, k) == StartRank(r, lo, k')
  {
    if r.Cat? {
      if Nullable(r.left) {
        StartRankConstant(r.right, lo + Size(r.left), k, k');
      } else {
        StartRankConstant(r.left, lo, StartRank(r.right, lo + Size(r.left), k),
                          StartRank(r.right, lo + Size(r.left), k'));
      }
    } else if r.Alt? {
      StartRankConstant(r.left, lo, k, k');
      StartRankConstant(r.right, lo + Size(r.left), k, k');
    } else if r.Many? {
      StartRankConstant(r.e, lo, SplitRank(r.op, r.e, lo, k), SplitRank(r.op, r.e, lo, k'));
    }
  }

  ghost predicate HasRanks(rank: seq<nat>, r: Regex, lo: nat, k: nat) {
    && lo + Size(r) <= |rank|
    && forall i :: lo <= i < lo + Size(r) ==> rank[i] == Rank(r, lo, i, k)
  }

  lemma AltSplitRanked(states: seq<State>, rank: seq<nat>, p: Regex, q: Regex, lo: nat, k: nat)
    requires |rank| == |states| && lo + Size(p) + Size(q) < |states|
    requires HasRanks(rank, Alt(p, q), lo, k)
    requires states[lo + Size(p) + Size(q)].out == Start(p, lo)
    requires states[lo + Size(p) + Size(q)].out1 == Start(q, lo + Size(p))
    ensures RankedState(states, rank, lo + Size(p) + Size(q))
    ensures HasRanks(rank, p, lo, k) && HasRanks(rank, q, lo + Size(p), k)
  {
    assert rank[Start(p, lo)] == StartRank(p, lo, k);
    assert rank[Start(q, lo + Size(p))] == StartRank(q, lo + Size(p), k);
  }

  lemma CatRanks(rank: seq<nat>, p: Regex, q: Regex, lo: nat, k: nat)
    requires HasRanks(rank, Cat(p, q), lo, k)
    ensures HasRanks(rank, q, lo + Size(p), k)
    ensures HasRanks(rank, p, lo, rank[Start(q, lo + Size(p))])
  {
    assert rank[Start(q, lo + Size(p))] == StartRank(q, lo + Size(p), k);
  }

  lemma ManySplitRanked(states: seq<State>, rank: seq<nat>, op: Postfix, e: Regex, lo: nat, k: nat)
    requires |rank| == |states| && lo + Size(e) < |states| && k < |states|
    requires op == ZeroOrOne || !Nullable(e)
    requires HasRanks(rank, Many(op, e), lo, rank[k])
    requires states[lo + Size(e)].out == k
    requires states[lo + Size(e)].out1 == Start(e, lo)
    ensures RankedState(states, rank, lo + Size(e))
    ensures HasRanks(rank, e, lo, rank[if op == ZeroOrOne then k else lo + Size(e)])
  {
    var split := lo + Size(e);
    var after := if op == ZeroOrOne then rank[k] else rank[split];
    assert rank[split] == Rank(Many(op, e), lo, split, rank[k]) == SplitRank(op, e, lo, rank[k]);
    if op != ZeroOrOne {
      StartRankConstant(e, lo, 0, after);
    }
    forall i | lo <= i < split ensures rank[i] == Rank(e, lo, i, after) {
      assert rank[i] == Rank(Many(op, e), lo, i, rank[k]);
    }
    assert rank[Start(e, lo)] == StartRank(e, lo, after);
  }

  lemma {:induction false} CatRanked(states: seq<State>, ranges: seq<Range>, rank: seq<nat>, r: Regex, lo: nat, k: nat)
    requires |rank| == |states| && k < |states| && r.Cat?
    requires Wired(states, ranges, r, lo, k) && LoopsProgress(r)
    requires HasRanks(rank, r, lo, rank[k])
    ensures forall i :: lo <= i < lo + Size(r) ==> RankedState(states, rank, i)
    decreases r, 0
  {
    CatRanks(rank, r.left, r.right, lo, rank[k]);
    FragmentRanked(states, ranges, rank, r.left, lo, Start(r.right, lo + Size(r.left)));
    FragmentRanked(states, ranges, rank, r.right, lo + Size(r.left), k);
  }

  lemma {:induction false} AltRanked(states: seq<State>, ranges: seq<Range>, rank: seq<nat>, r: Regex, lo: nat, k: nat)
    requires |rank| == |states| && k < |states| && r.Alt?
    requires Wired(states, ranges, r, lo, k) && LoopsProgress(r)
    requires HasRanks(rank, r, lo, rank[k])
    ensures forall i :: lo <= i < lo + Size(r) ==> RankedState(states, rank, i)
    decreases r, 0
  {
    AltSplitRanked(states, rank, r.left, r.right, lo, rank[k]);
    FragmentRanked(states, ranges, rank, r.left, lo, k);
    FragmentRanked(states, ranges, rank, r.right, lo + Size(r.left), k);
  }

  lemma {:induction false} FragmentRanked(states: seq<State>, ranges: seq<Range>, rank: seq<nat>,
                                          r: Regex, lo: nat, k: nat)
    requires |rank| == |states| && k < |states|
    requires Wired(states, ranges, r, lo, k) && LoopsProgress(r)
    requires HasRanks(rank, r, lo, rank[k])
    ensures forall i :: lo <= i < lo + Size(r) ==> RankedState(states, rank, i)
    decreases r, 1
  {
    if r.Cat? {
      CatRanked(states, ranges, rank, r, lo, k);
    } else if r.Alt? {
      AltRanked(states, ranges, rank, r, lo, k);
    } else if r.Many? {
      ManySplitRanked(states, rank, r.op, r.e, lo, k);
      FragmentRanked(states, ranges, rank, r.e, lo, if r.op == ZeroOrOne then k else lo + Size(r.e));
    }
  }

  /** A finished automaton: the states of `r`, then the matching state. */
  ghost predicate Automaton(states: seq<State>, ranges: seq<Range>, r: Regex, root: int) {
    && |states| == Size(r) + 1
    && Wired(states, ranges, r, 0, Size(r))
    && states[Size(r)].out == INVALID && states[Size(r)].out1 == INVALID && states[Size(r)].codepoint == 0
    && root == Start(r, 0)
  }

  /** No state of a wired fragment is left without a successor. */
  lemma {:induction false} FragmentLinks(states: seq<State>, ranges: seq<Range>, r: Regex, lo: nat, k: nat, i: nat)
    requires Wired(states, ranges, r, lo, k)
    ensures lo <= i < lo + Size(r) ==> states[i].out != INVALID
  {
    if r.Cat? {
      FragmentLinks(states, ranges, r.left, lo, Start(r.right, lo + Size(r.left)), i);
      FragmentLinks(states, ranges, r.right, lo + Size(r.left), k, i);
    } else if r.Alt? {
      FragmentLinks(states, ranges, r.left, lo, k, i);
      FragmentLinks(states, ranges, r.right, lo + Size(r.left), k, i);
    } else if r.Many? {
      FragmentLinks(states, ranges, r.e, lo, if r.op == ZeroOrOne then k else lo + Size(r.e), i);
    }
  }

  ghost function Ranks(r: Regex): seq<nat> {
    seq(Size(r) + 1, i requires 0 <= i <= Size(r) => if i < Size(r) then Rank(r, 0, i, 0) else 0)
  }

  lemma AutomatonRanked(states: seq<State>, ranges: seq<Range>, r: Regex, root: int)
    requires Automaton(states, ranges, r, root) && LoopsProgress(r)
    ensures Ranked(states, Ranks(r))
  {
    var rank := Ranks(r);
    FragmentRanked(states, ranges, rank, r, 0, Size(r));
    assert forall i :: 0 <= i < |states| ==> i < Size(r) || RankedState(states, rank, i);
  }

  /// ## The other direction

  ghost predicate EmptyStep(states: seq<State>, i: nat, j: nat) {
    i < |states| && IsSplit(states[i]) && (states[i].out == j || states[i].out1 == j)
  }

  ghost predicate EmptyPath(states: seq<State>, path: seq<nat>) {
    path != [] && forall i :: 0 <= i < |path| - 1 ==> EmptyStep(states, path[i], path[i + 1])
  }

  ghost predicate EmptyCycle(states: seq<State>, path: seq<nat>) {
    EmptyPath(states, path) && |path| > 1 && path[0] == path[|path| - 1]
  }

  lemma {:induction false} RankDecreases(states: seq<State>, rank: seq<nat>, path: seq<nat>)
    requires Ranked(states, rank) && EmptyPath(states, path) && |path| > 1
    ensures path[0] < |states| && path[|path| - 1] < |states| && rank[path[|path| - 1]] < rank[path[0]]
    decreases |path|
  {
    assert EmptyStep(states, path[0], path[0 + 1]);
    assert RankedState(states, rank, path[0]);
    if |path| > 2 {
      var rest := path[1..];
      forall i | 0 <= i < |rest| - 1
        ensures EmptyStep(states, rest[i], rest[i + 1])
      {
        assert EmptyStep(states, path[i + 1], path[i + 1 + 1]);
      }
      RankDecreases(states, rank, rest);
    }
  }

  lemma JoinPaths(states: seq<State>, path: seq<nat>, more: seq<nat>)
    requires EmptyPath(states, path) && EmptyPath(states, more) && path[|path| - 1] == more[0]
    ensures EmptyPath(states, path + more[1..])
  {
    var joined := path + more[1..];
    forall i | 0 <= i < |joined| - 1
      ensures EmptyStep(states, joined[i], joined[i + 1])
    {
      if i >= |path| - 1 {
        assert EmptyStep(states, more[i - (|path| - 1)], more[i - (|path| - 1) + 1]);
      }
    }
  }

  lemma {:induction false} NullablePath(states: seq<State>, ranges: seq<Range>, r: Regex, lo: nat, k: nat)
    returns (path: seq<nat>)
    requires Wired(states, ranges, r, lo, k) && Nullable(r)
    ensures EmptyPath(states, path) && path[0] == Start(r, lo) && path[|path| - 1] == k
  {
    if r.Cat? {
      var mid := lo + Size(r.left);
      path := NullablePath(states, ranges, r.left, lo, Start(r.right, mid));
      var more := NullablePath(states, ranges, r.right, mid, k);
      JoinPaths(states, path, more);
      path := path + more[1..];
    } else if r.Alt? {
      var split := lo + Size(r.left) + Size(r.right);
      var part, start := r.left, lo;
      if !Nullable(r.left) {
        part, start := r.right, lo + Size(r.left);
      }
      path := NullablePath(states, ranges, part, start, k);
      assert EmptyStep(states, split, path[0]);
      JoinPaths(states, [split, path[0]], path);
      path := [split, path[0]] + path[1..];
    } else if r.op == OneOrMore {
      var split := lo + Size(r.e);
      path := NullablePath(states, ranges, r.e, lo, split);
      assert EmptyStep(states, split, k);
      JoinPaths(states, path, [split, k]);
      path := path + [split, k][1..];
    } else {
      assert EmptyStep(states, lo + Size(r.e), k);
      path := [lo + Size(r.e), k];
    }
  }

  lemma {:induction false} NullableLoopCycle(states: seq<State>, ranges: seq<Range>, r: Regex, lo: nat, k: nat)
    returns (path: seq<nat>)
    requires Wired(states, ranges, r, lo, k) && !LoopsProgress(r)
    ensures EmptyCycle(states, path)
  {
    if r.Cat? {
      var mid := lo + Size(r.left);
      if LoopsProgress(r.left) {
        path := NullableLoopCycle(states, ranges, r.right, mid, k);
      } else {
        path := NullableLoopCycle(states, ranges, r.left, lo, Start(r.right, mid));
      }
    } else if r.Alt? {
      if LoopsProgress(r.left) {
        path := NullableLoopCycle(states, ranges, r.right, lo + Size(r.left), k);
      } else {
        path := NullableLoopCycle(states, ranges, r.left, lo, k);
      }
    } else if !LoopsProgress(r.e) {
      path := NullableLoopCycle(states, ranges, r.e, lo, if r.op == ZeroOrOne then k else lo + Size(r.e));
    } else {
      var split := lo + Size(r.e);
      path := NullablePath(states, ranges, r.e, lo, split);
      assert EmptyStep(states, split, path[0]);
      JoinPaths(states, [split, path[0]], path);
      path := [split, path[0]] + path[1..];
    }
  }

  /** Following splits from a state can return to that state iff some loop operand is nullable. */
  lemma CycleFreeIff(states: seq<State>, ranges: seq<Range>, r: Regex, root: int)
    requires Automaton(states, ranges, r, root)
    ensures LoopsProgress(r) <==> !exists path :: EmptyCycle(states, path)
  {
    if LoopsProgress(r) {
      AutomatonRanked(states, ranges, r, root);
      forall path | EmptyCycle(states, path) ensures false {
        RankDecreases(states, Ranks(r), path);
      }
    } else {
      var path := NullableLoopCycle(states, ranges, r, 0, Size(r));
    }
  }

  /** The automaton accepts, from its root, exactly the language of its expression. */
  lemma AutomatonAccepts(states: seq<State>, ranges: seq<Range>, r: Regex, root: int, w: Text)
    requires Automaton(states, ranges, r, root) && LoopsProgress(r) && ForwardLinks(ranges)
    ensures Ranked(states, Ranks(r))
    ensures Accepting(states, ranges, Ranks(r), root, w) <==> Member(r, w)
  {
    AutomatonRanked(states, ranges, r, root);
    Thompson(states, ranges, Ranks(r), r, 0, Size(r), w);
    assert w[..|w|] == w && w[|w|..] == [];
  }
}
