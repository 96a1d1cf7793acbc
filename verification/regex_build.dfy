/** What the steps of the Thompson construction do to the state array and the operand stack. */
module RegexBuild {
  import opened RegexLanguage
  import opened RegexNfa

  /** The effect of `Patch` on the links listed in `ps`. */
  ghost predicate Patched(before: seq<State>, after: seq<State>, ps: seq<nat>, k: int) {
    && |after| == |before|
    && forall i :: 0 <= i < |before| ==> after[i] == if i in ps then before[i].(out := k) else before[i]
  }

  lemma FragmentSame(before: seq<State>, after: seq<State>, ranges: seq<Range>, f: Frag, r: Regex, lo: nat)
    requires FragmentAt(before, ranges, f, r, lo)
    requires SameIn(before, after, lo, lo + Size(r))
    ensures FragmentAt(after, ranges, f, r, lo)
  {
    ShapeSame(before, after, ranges, ranges, r, lo);
    OutsDistinct(r, lo);
    ChainedSame(before, after, Outs(r, lo), lo, lo + Size(r));
  }

  lemma ChainedSame(before: seq<State>, after: seq<State>, ps: seq<nat>, lo: nat, hi: nat)
    requires SameIn(before, after, lo, hi)
    requires forall i :: 0 <= i < |ps| ==> lo <= ps[i] < hi
    requires Chained(before, ps)
    ensures Chained(after, ps)
  {
    forall i | 0 <= i < |ps|
      ensures ps[i] < |after| && after[ps[i]].out == Next(ps, i)
    {
      assert after[ps[i]] == before[ps[i]];
    }
  }

  /** `Append` joins two lists by setting the last link of the first. */
  lemma ChainedAppend(states: seq<State>, ps: seq<nat>, qs: seq<nat>, after: seq<State>)
    requires ps != [] && qs != []
    requires Chained(states, ps) && Chained(states, qs) && Distinct(ps + qs)
    requires after == states[ps[|ps| - 1] := states[ps[|ps| - 1]].(out := qs[0])]
    ensures Chained(after, ps + qs)
  {
    var last := ps[|ps| - 1];
    forall i | 0 <= i < |ps + qs|
      ensures (ps + qs)[i] < |after| && after[(ps + qs)[i]].out == Next(ps + qs, i)
    {
      assert (ps + qs)[|ps| - 1] == last;
      if i < |ps| {
        assert states[ps[i]].out == Next(ps, i);
      } else {
        assert states[qs[i - |ps|]].out == Next(qs, i - |ps|);
      }
    }
  }

  lemma PatchedIsWired(before: seq<State>, after: seq<State>, ranges: seq<Range>, r: Regex, lo: nat, k: int)
    requires Shape(before, ranges, r, lo)
    requires Patched(before, after, Outs(r, lo), k)
    ensures Wired(after, ranges, r, lo, k)
  {
    forall i: nat | i < |before|
      ensures after[i] == if IsOut(r, lo, i) then before[i].(out := k) else before[i]
    {
      OutsAreOuts(r, lo, i);
    }
    ShapeFrame(before, after, ranges, r, lo);
    ExitsIff(after, r, lo, k);
  }

  lemma TopOperand(states: seq<State>, ranges: seq<Range>, frags: seq<Frag>, rs: seq<Regex>)
    returns (lo: nat)
    requires Represents(states, ranges, frags, rs) && rs != []
    ensures |frags| == |rs|
    ensures lo + Size(rs[|rs| - 1]) == |states|
    ensures FragmentAt(states, ranges, frags[|frags| - 1], rs[|rs| - 1], lo)
    ensures Represents(states[..lo], ranges, frags[..|frags| - 1], rs[..|rs| - 1])
  {
    RepresentsSizes(states, ranges, frags, rs);
    lo := |states| - Size(rs[|rs| - 1]);
  }

  lemma TopTwoOperands(states: seq<State>, ranges: seq<Range>, frags: seq<Frag>, rs: seq<Regex>)
    returns (lo: nat, mid: nat)
    requires Represents(states, ranges, frags, rs) && |rs| >= 2
    ensures |frags| == |rs|
    ensures mid + Size(rs[|rs| - 1]) == |states| && lo + Size(rs[|rs| - 2]) == mid
    ensures FragmentAt(states, ranges, frags[|frags| - 1], rs[|rs| - 1], mid)
    ensures FragmentAt(states, ranges, frags[|frags| - 2], rs[|rs| - 2], lo)
    ensures Represents(states[..lo], ranges, frags[..|frags| - 2], rs[..|rs| - 2])
  {
    mid := TopOperand(states, ranges, frags, rs);
    lo := TopOperand(states[..mid], ranges, frags[..|frags| - 1], rs[..|rs| - 1]);
    assert states[..mid][..lo] == states[..lo];
    assert frags[..|frags| - 1][..|frags| - 2] == frags[..|frags| - 2];
    assert rs[..|rs| - 1][..|rs| - 2] == rs[..|rs| - 2];
    FragmentSame(states[..mid], states, ranges, frags[|frags| - 2], rs[|rs| - 2], lo);
  }

  lemma PushOperandKeeps(states: seq<State>, ranges: seq<Range>, frags: seq<Frag>, rs: seq<Regex>,
                         s: State, sym: Sym)
    requires Represents(states, ranges, frags, rs)
    requires s.out == INVALID && s.out1 == INVALID && Encodes(ranges, s, sym)
    ensures Represents(states + [s], ranges,
                       frags + [Frag(|states|, |states|, |states|)], rs + [Symbol(sym)])
  {
    RepresentsPush(states, states + [s], ranges, frags, rs, Frag(|states|, |states|, |states|), Symbol(sym));
  }

  lemma PatchedOutside(before: seq<State>, after: seq<State>, ps: seq<nat>, k: int, from: nat, to: nat)
    requires Patched(before, after, ps, k) && from <= to <= |before|
    requires forall i :: 0 <= i < |ps| ==> !(from <= ps[i] < to)
    ensures SameIn(before, after, from, to)
  {
  }

  lemma ConcatenationShape(after: seq<State>, ranges: seq<Range>, lo: nat, mid: nat, p: Regex, q: Regex)
    requires mid == lo + Size(p)
    requires Wired(after, ranges, p, lo, Start(q, mid)) && Shape(after, ranges, q, mid)
    ensures Shape(after, ranges, Cat(p, q), lo)
  {
  }

  lemma ConcatenationParts(states: seq<State>, after: seq<State>, ranges: seq<Range>, lo: nat, mid: nat,
                           f2: Frag, p: Regex, q: Regex)
    requires mid == lo + Size(p) && |states| == mid + Size(q)
    requires Shape(states, ranges, p, lo) && FragmentAt(states, ranges, f2, q, mid)
    requires Patched(states, after, Outs(p, lo), f2.start)
    ensures SameIn(states, after, 0, lo)
    ensures Wired(after, ranges, p, lo, Start(q, mid))
    ensures FragmentAt(after, ranges, f2, q, mid)
  {
    OutsDistinct(p, lo);
    PatchedOutside(states, after, Outs(p, lo), f2.start, 0, lo);
    PatchedOutside(states, after, Outs(p, lo), f2.start, mid, |states|);
    PatchedIsWired(states, after, ranges, p, lo, Start(q, mid));
    FragmentSame(states, after, ranges, f2, q, mid);
  }

  lemma ConcatenationFragment(after: seq<State>, ranges: seq<Range>, lo: nat, mid: nat, f2: Frag, p: Regex, q: Regex)
    requires mid == lo + Size(p)
    requires Wired(after, ranges, p, lo, Start(q, mid)) && FragmentAt(after, ranges, f2, q, mid)
    ensures FragmentAt(after, ranges, Frag(Start(p, lo), f2.out, lo), Cat(p, q), lo)
  {
    ConcatenationShape(after, ranges, lo, mid, p, q);
  }

  lemma ConcatenationKeeps(states: seq<State>, after: seq<State>, ranges: seq<Range>,
                           frags: seq<Frag>, rs: seq<Regex>, lo: nat, mid: nat,
                           f1: Frag, f2: Frag, p: Regex, q: Regex)
    requires mid == lo + Size(p) && |states| == mid + Size(q)
    requires Represents(states[..lo], ranges, frags, rs)
    requires FragmentAt(states, ranges, f1, p, lo) && FragmentAt(states, ranges, f2, q, mid)
    requires Patched(states, after, Outs(p, lo), f2.start)
    ensures Represents(after, ranges, frags + [Frag(f1.start, f2.out, lo)], rs + [Cat(p, q)])
  {
    ConcatenationParts(states, after, ranges, lo, mid, f2, p, q);
    ConcatenationFragment(after, ranges, lo, mid, f2, p, q);
    assert states[..lo] <= after;
    RepresentsPush(states[..lo], after, ranges, frags, rs, Frag(f1.start, f2.out, lo), Cat(p, q));
  }

  lemma {:induction false} AlternationShape(states: seq<State>, after: seq<State>, ranges: seq<Range>, lo: nat,
                                            mid: nat, p: Regex, q: Regex, link: int)
    requires lo + Size(p) == mid && mid + Size(q) == |states|
    requires Shape(states, ranges, p, lo) && Shape(states, ranges, q, mid)
    requires Outs(p, lo)[|Outs(p, lo)| - 1] < |states|
    requires var last := Outs(p, lo)[|Outs(p, lo)| - 1];
             after == states[last := states[last].(out := link)]
                      + [State(Start(p, lo), Start(q, mid), INVALID, 0)]
    ensures SameIn(states, after, 0, lo)
    ensures Shape(after, ranges, Alt(p, q), lo)
  {
    var ps := Outs(p, lo);
    OutsDistinct(p, lo);
    OutsAreOuts(p, lo, ps[|ps| - 1]);
    ShapeFrame(states, after, ranges, p, lo);
    ShapeSame(states, after, ranges, ranges, q, mid);
  }

  lemma ChainedAndMore(states: seq<State>, ps: seq<nat>, s: State)
    requires Chained(states, ps)
    ensures Chained(states + [s], ps)
  {
    forall i | 0 <= i < |ps|
      ensures ps[i] < |states + [s]| && (states + [s])[ps[i]].out == Next(ps, i)
    {
      assert (states + [s])[ps[i]] == states[ps[i]];
    }
  }

  lemma AlternationChain(states: seq<State>, joined: seq<State>, lo: nat, mid: nat, p: Regex, q: Regex, s: State)
    requires lo + Size(p) == mid && mid + Size(q) == |states|
    requires Chained(states, Outs(p, lo)) && Chained(states, Outs(q, mid))
    requires Outs(p, lo)[|Outs(p, lo)| - 1] < |states|
    requires var last := Outs(p, lo)[|Outs(p, lo)| - 1];
             joined == states[last := states[last].(out := Outs(q, mid)[0])]
    ensures Chained(joined + [s], Outs(Alt(p, q), lo))
  {
    OutsDistinct(Alt(p, q), lo);
    ChainedAppend(states, Outs(p, lo), Outs(q, mid), joined);
    ChainedAndMore(joined, Outs(p, lo) + Outs(q, mid), s);
  }

  /** Alternation adds the split state and joins the two lists of dangling links. */
  lemma AlternationKeeps(states: seq<State>, after: seq<State>, ranges: seq<Range>,
                         frags: seq<Frag>, rs: seq<Regex>, lo: nat, mid: nat,
                         f1: Frag, f2: Frag, p: Regex, q: Regex)
    requires lo + Size(p) == mid && mid + Size(q) == |states|
    requires Represents(states[..lo], ranges, frags, rs)
    requires FragmentAt(states, ranges, f1, p, lo) && FragmentAt(states, ranges, f2, q, mid)
    requires Outs(p, lo)[|Outs(p, lo)| - 1] < |states|
    requires var last := Outs(p, lo)[|Outs(p, lo)| - 1];
             after == states[last := states[last].(out := f2.out)]
                      + [State(f1.start, f2.start, INVALID, 0)]
    ensures Represents(after, ranges, frags + [Frag(|states|, f1.out, lo)], rs + [Alt(p, q)])
  {
    AlternationShape(states, after, ranges, lo, mid, p, q, f2.out);
    var last := Outs(p, lo)[|Outs(p, lo)| - 1];
    AlternationChain(states, states[last := states[last].(out := f2.out)], lo, mid, p, q,
                     State(f1.start, f2.start, INVALID, 0));
    assert states[..lo] <= after;
    RepresentsPush(states[..lo], after, ranges, frags, rs, Frag(|states|, f1.out, lo), Alt(p, q));
  }

  lemma ZeroOrOneShape(states: seq<State>, after: seq<State>, ranges: seq<Range>, lo: nat, e: Regex)
    requires lo + Size(e) == |states|
    requires Shape(states, ranges, e, lo)
    requires Outs(e, lo)[|Outs(e, lo)| - 1] < |states|
    requires var grown := states + [State(INVALID, Start(e, lo), INVALID, 0)];
             var last := Outs(e, lo)[|Outs(e, lo)| - 1];
             after == grown[last := grown[last].(out := |states|)]
    ensures SameIn(states, after, 0, lo)
    ensures Shape(after, ranges, Many(ZeroOrOne, e), lo)
  {
    var ps := Outs(e, lo);
    OutsDistinct(e, lo);
    OutsAreOuts(e, lo, ps[|ps| - 1]);
    ShapeFrame(states, after, ranges, e, lo);
  }

  lemma ZeroOrOneFragment(states: seq<State>, after: seq<State>, ranges: seq<Range>, lo: nat, f: Frag, e: Regex)
    requires lo + Size(e) == |states|
    requires FragmentAt(states, ranges, f, e, lo)
    requires Outs(e, lo)[|Outs(e, lo)| - 1] < |states|
    requires var grown := states + [State(INVALID, f.start, INVALID, 0)];
             var last := Outs(e, lo)[|Outs(e, lo)| - 1];
             after == grown[last := grown[last].(out := |states|)]
    ensures SameIn(states, after, 0, lo)
    ensures FragmentAt(after, ranges, Frag(|states|, f.out, lo), Many(ZeroOrOne, e), lo)
  {
    var s := State(INVALID, f.start, INVALID, 0);
    OutsDistinct(Many(ZeroOrOne, e), lo);
    ZeroOrOneShape(states, after, ranges, lo, e);
    ChainedAndMore(states, Outs(e, lo), s);
    ChainedAppend(states + [s], Outs(e, lo), [|states|], after);
  }

  /** `?` adds the split state and appends it to the list of dangling links. */
  lemma ZeroOrOneKeeps(states: seq<State>, after: seq<State>, ranges: seq<Range>,
                       frags: seq<Frag>, rs: seq<Regex>, lo: nat, f: Frag, e: Regex)
    requires lo + Size(e) == |states|
    requires Represents(states[..lo], ranges, frags, rs)
    requires FragmentAt(states, ranges, f, e, lo)
    requires Outs(e, lo)[|Outs(e, lo)| - 1] < |states|
    requires var grown := states + [State(INVALID, f.start, INVALID, 0)];
             var last := Outs(e, lo)[|Outs(e, lo)| - 1];
             after == grown[last := grown[last].(out := |states|)]
    ensures Represents(after, ranges, frags + [Frag(|states|, f.out, lo)], rs + [Many(ZeroOrOne, e)])
  {
    ZeroOrOneFragment(states, after, ranges, lo, f, e);
    assert states[..lo] <= after;
    RepresentsPush(states[..lo], after, ranges, frags, rs, Frag(|states|, f.out, lo), Many(ZeroOrOne, e));
  }

  function LoopFragment(f: Frag, op: Postfix, s: int, lo: nat): Frag {
    Frag(if op == OneOrMore then f.start else s, s, lo)
  }

  lemma LoopShape(states: seq<State>, after: seq<State>, ranges: seq<Range>, lo: nat, op: Postfix, e: Regex)
    requires op != ZeroOrOne
    requires lo + Size(e) == |states|
    requires Shape(states, ranges, e, lo)
    requires Patched(states + [State(INVALID, Start(e, lo), INVALID, 0)], after, Outs(e, lo), |states|)
    ensures SameIn(states, after, 0, lo)
    ensures Shape(after, ranges, Many(op, e), lo)
    ensures after[|states|] == State(INVALID, Start(e, lo), INVALID, 0)
  {
    var grown := states + [State(INVALID, Start(e, lo), INVALID, 0)];
    OutsDistinct(e, lo);
    ShapeSame(states, grown, ranges, ranges, e, lo);
    PatchedIsWired(grown, after, ranges, e, lo, |states|);
    PatchedOutside(grown, after, Outs(e, lo), |states|, 0, lo);
  }

  lemma LoopFragmentAt(states: seq<State>, after: seq<State>, ranges: seq<Range>,
                       lo: nat, f: Frag, op: Postfix, e: Regex)
    requires op != ZeroOrOne
    requires lo + Size(e) == |states|
    requires FragmentAt(states, ranges, f, e, lo)
    requires Patched(states + [State(INVALID, f.start, INVALID, 0)], after, Outs(e, lo), |states|)
    ensures SameIn(states, after, 0, lo)
    ensures FragmentAt(after, ranges, LoopFragment(f, op, |states|, lo), Many(op, e), lo)
  {
    LoopShape(states, after, ranges, lo, op, e);
  }

  /** `*` and `+` add the split state and patch the dangling links to it. */
  lemma LoopKeeps(states: seq<State>, after: seq<State>, ranges: seq<Range>,
                  frags: seq<Frag>, rs: seq<Regex>, lo: nat, f: Frag, op: Postfix, e: Regex)
    requires op != ZeroOrOne
    requires lo + Size(e) == |states|
    requires Represents(states[..lo], ranges, frags, rs)
    requires FragmentAt(states, ranges, f, e, lo)
    requires Patched(states + [State(INVALID, f.start, INVALID, 0)], after, Outs(e, lo), |states|)
    ensures Represents(after, ranges, frags + [LoopFragment(f, op, |states|, lo)], rs + [Many(op, e)])
  {
    LoopFragmentAt(states, after, ranges, lo, f, op, e);
    assert states[..lo] <= after;
    RepresentsPush(states[..lo], after, ranges, frags, rs, LoopFragment(f, op, |states|, lo), Many(op, e));
  }

  lemma ChainedShift(before: seq<State>, after: seq<State>, ps: seq<nat>, lo: nat, n: nat, to: nat)
    requires Copied(before, lo, n, after, to)
    requires forall i :: 0 <= i < |ps| ==> lo <= ps[i] < lo + n
    requires Chained(before, ps)
    ensures Chained(after, ShiftAll(ps, to - lo))
  {
    var qs := ShiftAll(ps, to - lo);
    forall i | 0 <= i < |qs|
      ensures qs[i] < |after| && after[qs[i]].out == Next(qs, i)
    {
      CopiedState(before, lo, n, after, to, ps[i] - lo);
      assert before[ps[i]].out == Next(ps, i);
    }
  }

  lemma CloneFragment(before: seq<State>, after: seq<State>, ranges: seq<Range>, lo: nat, f: Frag, r: Regex)
    requires lo + Size(r) == |before| && FragmentAt(before, ranges, f, r, lo)
    requires Copied(before, lo, Size(r), after, |before|)
    ensures FragmentAt(after, ranges, Frag(f.start + Size(r), f.out + Size(r), f.minIndex + Size(r)), r, |before|)
  {
    var to := |before|;
    ShapeShift(before, after, ranges, r, lo, to);
    StartShift(r, lo, to);
    OutsShift(r, lo, to);
    OutsDistinct(r, lo);
    ChainedShift(before, after, Outs(r, lo), lo, Size(r), to);
  }

  lemma AppendedCopy(before: seq<State>, copy: seq<State>, after: seq<State>, lo: nat)
    requires lo + |copy| == |before| && after == before + copy
    requires forall i :: 0 <= i < |copy| ==> copy[i] == ShiftedState(before[lo..][i], |copy|)
    ensures Copied(before, lo, |copy|, after, |before|)
  {
    forall i | |before| <= i < |before| + |copy|
      ensures after[i] == ShiftedState(before[i - |copy|], |copy|)
    {
      assert copy[i - |before|] == ShiftedState(before[lo..][i - |before|], |copy|);
    }
  }

  /** The copied states form a fragment of their own. */
  lemma CloneKeeps(states: seq<State>, copy: seq<State>, ranges: seq<Range>, frags: seq<Frag>, rs: seq<Regex>,
                   lo: nat, f: Frag, r: Regex)
    requires Represents(states, ranges, frags, rs)
    requires lo + Size(r) == |states| && |copy| == Size(r)
    requires FragmentAt(states, ranges, f, r, lo)
    requires forall i :: 0 <= i < |copy| ==> copy[i] == ShiftedState(states[lo..][i], |copy|)
    ensures Represents(states + copy, ranges,
                       frags + [Frag(f.start + Size(r), f.out + Size(r), f.minIndex + Size(r))], rs + [r])
  {
    AppendedCopy(states, copy, states + copy, lo);
    CloneFragment(states, states + copy, ranges, lo, f, r);
    RepresentsPush(states, states + copy, ranges, frags, rs,
                   Frag(f.start + Size(r), f.out + Size(r), f.minIndex + Size(r)), r);
  }
}
