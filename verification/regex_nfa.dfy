/** The automaton states that a compiled pattern consists of, as values.

  A fragment for `r` whose first state has index `lo` occupies the contiguous indices
  `lo .. lo + Size(r)`. Which of them is entered first (`Start`) and which ones have a dangling
  `out` link, in which order they are chained (`Outs`), depends on `r` and `lo` alone. */
module RegexNfa {
  import opened RegexLanguage

  const INVALID := -1
  const ANY_CHARACTER_CLASS := 0xFFFFFFFF
  const RANGE_CHARACTER_CLASS := 0xFFFFFFFE
  const RANGE_NEGATION_FLAG := 0x80000000

  datatype Range = Range(start: int, end: int, next: int)
  datatype State = State(out: int, out1: int, rangeStart: int, codepoint: int)
  datatype Frag = Frag(start: int, out: int, minIndex: int)

  function Size(r: Regex): (n: nat)
    ensures n > 0
  {
    match r
    case Symbol(_) => 1
    case Cat(p, q) => Size(p) + Size(q)
    case Alt(p, q) => Size(p) + Size(q) + 1
    case Many(_, e) => Size(e) + 1
  }

  function Start(r: Regex, lo: nat): (s: nat)
    ensures lo <= s < lo + Size(r)
  {
    match r
    case Symbol(_) => lo
    case Cat(p, q) => Start(p, lo)
    case Alt(p, q) => lo + Size(p) + Size(q)
    case Many(op, e) => if op == OneOrMore then Start(e, lo) else lo + Size(e)
  }

  /** The dangling `out` links, in the order in which they are chained. */
  function Outs(r: Regex, lo: nat): (ps: seq<nat>)
    ensures ps != []
  {
    match r
    case Symbol(_) => [lo]
    case Cat(p, q) => Outs(q, lo + Size(p))
    case Alt(p, q) => Outs(p, lo) + Outs(q, lo + Size(p))
    case Many(op, e) => (if op == ZeroOrOne then Outs(e, lo) else []) + [lo + Size(e)]
  }

  predicate IsOut(r: Regex, lo: nat, i: nat) {
    match r
    case Symbol(_) => i == lo
    case Cat(p, q) => IsOut(q, lo + Size(p), i)
    case Alt(p, q) => IsOut(p, lo, i) || IsOut(q, lo + Size(p), i)
    case Many(op, e) => (op == ZeroOrOne && IsOut(e, lo, i)) || i == lo + Size(e)
  }

  lemma {:induction false} IsOutRange(r: Regex, lo: nat, i: nat)
    requires IsOut(r, lo, i)
    ensures lo <= i < lo + Size(r)
  {
    match r
    case Cat(p, q) => IsOutRange(q, lo + Size(p), i);
    case Alt(p, q) =>
      if IsOut(p, lo, i) {
        IsOutRange(p, lo, i);
      } else {
        IsOutRange(q, lo + Size(p), i);
      }
    case Many(op, e) => if i != lo + Size(e) { IsOutRange(e, lo, i); }
    case _ =>
  }

  lemma {:induction false} OutsAreOuts(r: Regex, lo: nat, i: nat)
    ensures i in Outs(r, lo) <==> IsOut(r, lo, i)
  {
    match r
    case Cat(p, q) => OutsAreOuts(q, lo + Size(p), i);
    case Alt(p, q) =>
      OutsAreOuts(p, lo, i);
      OutsAreOuts(q, lo + Size(p), i);
    case Many(op, e) => OutsAreOuts(e, lo, i);
    case _ =>
  }

  predicate Distinct(ps: seq<nat>) {
    forall i, j :: 0 <= i < j < |ps| ==> ps[i] != ps[j]
  }

  lemma {:induction false} OutsDistinct(r: Regex, lo: nat)
    ensures Distinct(Outs(r, lo))
    ensures forall i :: 0 <= i < |Outs(r, lo)| ==> lo <= Outs(r, lo)[i] < lo + Size(r)
  {
    match r
    case Cat(p, q) => OutsDistinct(q, lo + Size(p));
    case Alt(p, q) =>
      OutsDistinct(p, lo);
      OutsDistinct(q, lo + Size(p));
    case Many(op, e) => OutsDistinct(e, lo);
    case _ =>
  }

  /** The ranges from index `at` on are the linked list that `ParseRange` builds for a class. */
  ghost predicate ClassAt(ranges: seq<Range>, at: int, negated: bool, items: seq<Interval>) {
    && items != []
    && 0 <= at <= at + |items| <= |ranges|
    && forall i :: 0 <= i < |items| ==>
         ranges[at + i] == Range(
           if i == 0 && negated then items[i].first + RANGE_NEGATION_FLAG else items[i].first,
           items[i].last,
           if i + 1 < |items| then at + i + 1 else INVALID)
  }

  ghost predicate Encodes(ranges: seq<Range>, s: State, sym: Sym) {
    match sym
    case Exact(c) => s.codepoint == c
    case Any => s.codepoint == ANY_CHARACTER_CLASS
    case Class(negated, items) =>
      s.codepoint == RANGE_CHARACTER_CLASS && ClassAt(ranges, s.rangeStart, negated, items)
  }

  /** Every dangling link of the fragment leads to `k`. */
  ghost predicate Exits(states: seq<State>, r: Regex, lo: nat, k: int) {
    var hi := lo + Size(r);
    && hi <= |states|
    && match r
       case Symbol(_) => states[lo].out == k
       case Cat(p, q) => Exits(states, q, lo + Size(p), k)
       case Alt(p, q) => Exits(states, p, lo, k) && Exits(states, q, lo + Size(p), k)
       case Many(op, e) => (op == ZeroOrOne ==> Exits(states, e, lo, k)) && states[hi - 1].out == k
  }

  lemma {:induction false} ExitsIff(states: seq<State>, r: Regex, lo: nat, k: int)
    requires lo + Size(r) <= |states|
    ensures Exits(states, r, lo, k) <==> forall i: nat :: i < |states| && IsOut(r, lo, i) ==> states[i].out == k
  {
    match r
    case Symbol(_) =>
    case Cat(p, q) => ExitsIff(states, q, lo + Size(p), k);
    case Alt(p, q) =>
      ExitsIff(states, p, lo, k);
      ExitsIff(states, q, lo + Size(p), k);
    case Many(op, e) =>
      ExitsIff(states, e, lo, k);
      assert IsOut(r, lo, lo + Size(e));
  }

  /** The links that the construction sets when it builds the topmost operator of `r`. */
  ghost predicate Linked(states: seq<State>, ranges: seq<Range>, r: Regex, lo: nat)
    requires lo + Size(r) <= |states|
  {
    match r
    case Symbol(sym) =>
      states[lo].out1 == INVALID && Encodes(ranges, states[lo], sym)
    case Cat(p, q) =>
      Exits(states, p, lo, Start(q, lo + Size(p)))
    case Alt(p, q) =>
      var split := states[lo + Size(p) + Size(q)];
      split.out == Start(p, lo) && split.out1 == Start(q, lo + Size(p))
    case Many(op, e) =>
      && states[lo + Size(e)].out1 == Start(e, lo)
      && (op != ZeroOrOne ==> Exits(states, e, lo, lo + Size(e)))
  }

  /** The states from `lo` on are wired as the Thompson construction for `r`; its own dangling
      links are left open. */
  ghost predicate Shape(states: seq<State>, ranges: seq<Range>, r: Regex, lo: nat) {
    && lo + Size(r) <= |states|
    && Linked(states, ranges, r, lo)
    && match r
       case Symbol(_) => true
       case Cat(p, q) => Shape(states, ranges, p, lo) && Shape(states, ranges, q, lo + Size(p))
       case Alt(p, q) => Shape(states, ranges, p, lo) && Shape(states, ranges, q, lo + Size(p))
       case Many(_, e) => Shape(states, ranges, e, lo)
  }

  /** A fragment whose continuation is the state `k`. */
  ghost predicate Wired(states: seq<State>, ranges: seq<Range>, r: Regex, lo: nat, k: int) {
    Shape(states, ranges, r, lo) && Exits(states, r, lo, k)
  }

  function Next(ps: seq<nat>, i: nat): int
    requires i < |ps|
  {
    if i + 1 < |ps| then ps[i + 1] else INVALID
  }

  /** The dangling links form one list, in the order of `ps`. */
  ghost predicate Chained(states: seq<State>, ps: seq<nat>) {
    forall i :: 0 <= i < |ps| ==> ps[i] < |states| && states[ps[i]].out == Next(ps, i)
  }

  /** `after` differs from `before` in `lo .. lo + Size(r)` at most in the dangling links of `r`. */
  ghost predicate SameBut(before: seq<State>, after: seq<State>, r: Regex, lo: nat) {
    var hi := lo + Size(r);
    && hi <= |before| && hi <= |after|
    && forall i :: lo <= i < hi ==>
         && after[i] == before[i].(out := after[i].out)
         && (!IsOut(r, lo, i) ==> after[i].out == before[i].out)
  }

  ghost predicate SameIn(before: seq<State>, after: seq<State>, lo: nat, hi: nat) {
    && hi <= |before| && hi <= |after|
    && forall i :: lo <= i < hi ==> after[i] == before[i]
  }

  lemma {:induction false} ExitsFrame(before: seq<State>, after: seq<State>, r: Regex, lo: nat, k: int)
    requires SameIn(before, after, lo, lo + Size(r))
    requires Exits(before, r, lo, k)
    ensures Exits(after, r, lo, k)
  {
    match r
    case Symbol(_) =>
    case Cat(p, q) => ExitsFrame(before, after, q, lo + Size(p), k);
    case Alt(p, q) =>
      ExitsFrame(before, after, p, lo, k);
      ExitsFrame(before, after, q, lo + Size(p), k);
    case Many(op, e) => if op == ZeroOrOne { ExitsFrame(before, after, e, lo, k); }
  }

  lemma EncodesMoreRanges(ranges: seq<Range>, moreRanges: seq<Range>, s: State, sym: Sym)
    requires Encodes(ranges, s, sym)
    requires ranges <= moreRanges
    ensures Encodes(moreRanges, s, sym)
  {
  }

  lemma LinkedSameSymbol(before: seq<State>, after: seq<State>,
                         ranges: seq<Range>, moreRanges: seq<Range>, sym: Sym, lo: nat)
    requires lo < |before| && lo < |after| && after[lo] == before[lo] && ranges <= moreRanges
    requires Linked(before, ranges, Symbol(sym), lo)
    ensures Linked(after, moreRanges, Symbol(sym), lo)
  {
    EncodesMoreRanges(ranges, moreRanges, after[lo], sym);
  }

  lemma {:induction false} LinkedSameMany(before: seq<State>, after: seq<State>,
                                          ranges: seq<Range>, moreRanges: seq<Range>, op: Postfix, e: Regex, lo: nat)
    requires SameIn(before, after, lo, lo + Size(e) + 1)
    requires Linked(before, ranges, Many(op, e), lo)
    ensures Linked(after, moreRanges, Many(op, e), lo)
  {
    if op != ZeroOrOne {
      ExitsFrame(before, after, e, lo, lo + Size(e));
    }
  }

  lemma {:induction false} LinkedSame(before: seq<State>, after: seq<State>,
                                      ranges: seq<Range>, moreRanges: seq<Range>, r: Regex, lo: nat)
    requires SameIn(before, after, lo, lo + Size(r)) && ranges <= moreRanges
    requires Linked(before, ranges, r, lo)
    ensures Linked(after, moreRanges, r, lo)
  {
    match r
    case Symbol(sym) => LinkedSameSymbol(before, after, ranges, moreRanges, sym, lo);
    case Cat(p, q) => ExitsFrame(before, after, p, lo, Start(q, lo + Size(p)));
    case Alt(p, q) =>
    case Many(op, e) => LinkedSameMany(before, after, ranges, moreRanges, op, e, lo);
  }

  lemma {:induction false} ShapeSame(before: seq<State>, after: seq<State>,
                                     ranges: seq<Range>, moreRanges: seq<Range>, r: Regex, lo: nat)
    requires SameIn(before, after, lo, lo + Size(r)) && ranges <= moreRanges
    requires Shape(before, ranges, r, lo)
    ensures Shape(after, moreRanges, r, lo)
  {
    LinkedSame(before, after, ranges, moreRanges, r, lo);
    if r.Cat? || r.Alt? {
      ShapeSame(before, after, ranges, moreRanges, r.left, lo);
      ShapeSame(before, after, ranges, moreRanges, r.right, lo + Size(r.left));
    } else if r.Many? {
      ShapeSame(before, after, ranges, moreRanges, r.e, lo);
    }
  }

  lemma SameButPart(before: seq<State>, after: seq<State>, r: Regex, lo: nat, part: Regex, from: nat)
    requires SameBut(before, after, r, lo)
    requires lo <= from && from + Size(part) <= lo + Size(r)
    requires forall i: nat :: from <= i < from + Size(part) && IsOut(r, lo, i) ==> IsOut(part, from, i)
    ensures SameBut(before, after, part, from)
  {
  }

  lemma SameButIsSame(before: seq<State>, after: seq<State>, r: Regex, lo: nat, from: nat, to: nat)
    requires SameBut(before, after, r, lo)
    requires lo <= from <= to <= lo + Size(r)
    requires forall i: nat :: from <= i < to ==> !IsOut(r, lo, i)
    ensures SameIn(before, after, from, to)
  {
    forall i | from <= i < to
      ensures after[i] == before[i]
    {
      assert after[i] == before[i].(out := after[i].out);
    }
  }

  lemma OutsInside(r: Regex, lo: nat)
    ensures forall i: nat :: IsOut(r, lo, i) ==> lo <= i < lo + Size(r)
  {
    forall i: nat | IsOut(r, lo, i) ensures lo <= i < lo + Size(r) { IsOutRange(r, lo, i); }
  }

  lemma LinkedFrameCat(before: seq<State>, after: seq<State>, ranges: seq<Range>, r: Regex, lo: nat)
    requires r.Cat? && SameBut(before, after, r, lo)
    requires Linked(before, ranges, r, lo)
    ensures Linked(after, ranges, r, lo)
    ensures SameIn(before, after, lo, lo + Size(r.left))
    ensures SameBut(before, after, r.right, lo + Size(r.left))
  {
    var mid := lo + Size(r.left);
    OutsInside(r.right, mid);
    SameButIsSame(before, after, r, lo, lo, mid);
    ExitsFrame(before, after, r.left, lo, Start(r.right, mid));
    SameButPart(before, after, r, lo, r.right, mid);
  }

  lemma LinkedFrameAlt(before: seq<State>, after: seq<State>, ranges: seq<Range>, r: Regex, lo: nat)
    requires r.Alt? && SameBut(before, after, r, lo)
    requires Linked(before, ranges, r, lo)
    ensures Linked(after, ranges, r, lo)
    ensures SameBut(before, after, r.left, lo)
    ensures SameBut(before, after, r.right, lo + Size(r.left))
  {
    var mid := lo + Size(r.left);
    OutsInside(r.left, lo);
    OutsInside(r.right, mid);
    SameButPart(before, after, r, lo, r.left, lo);
    SameButPart(before, after, r, lo, r.right, mid);
    SameButIsSame(before, after, r, lo, mid + Size(r.right), mid + Size(r.right) + 1);
  }

  lemma LinkedFrameMany(before: seq<State>, after: seq<State>, ranges: seq<Range>, r: Regex, lo: nat)
    requires r.Many? && SameBut(before, after, r, lo)
    requires Linked(before, ranges, r, lo)
    ensures Linked(after, ranges, r, lo)
    ensures r.op == ZeroOrOne ==> SameBut(before, after, r.e, lo)
    ensures r.op != ZeroOrOne ==> SameIn(before, after, lo, lo + Size(r.e))
  {
    if r.op == ZeroOrOne {
      SameButPart(before, after, r, lo, r.e, lo);
    } else {
      SameButIsSame(before, after, r, lo, lo, lo + Size(r.e));
      ExitsFrame(before, after, r.e, lo, lo + Size(r.e));
    }
  }

  /** The shape of a fragment says nothing about its own dangling links. */
  lemma {:induction false} ShapeFrame(before: seq<State>, after: seq<State>,
                                      ranges: seq<Range>, r: Regex, lo: nat)
    requires Shape(before, ranges, r, lo)
    requires SameBut(before, after, r, lo)
    ensures Shape(after, ranges, r, lo)
  {
    if r.Cat? {
      LinkedFrameCat(before, after, ranges, r, lo);
      ShapeSame(before, after, ranges, ranges, r.left, lo);
      ShapeFrame(before, after, ranges, r.right, lo + Size(r.left));
    } else if r.Alt? {
      LinkedFrameAlt(before, after, ranges, r, lo);
      ShapeFrame(before, after, ranges, r.left, lo);
      ShapeFrame(before, after, ranges, r.right, lo + Size(r.left));
    } else if r.Many? {
      LinkedFrameMany(before, after, ranges, r, lo);
      if r.op == ZeroOrOne {
        ShapeFrame(before, after, ranges, r.e, lo);
      } else {
        ShapeSame(before, after, ranges, ranges, r.e, lo);
      }
    }
  }

  function Shifted(link: int, count: nat): int {
    if link == INVALID then INVALID else link + count
  }

  /** What `CloneTopOperand` writes for a copied state. */
  function ShiftedState(s: State, count: nat): State {
    s.(out := Shifted(s.out, count), out1 := Shifted(s.out1, count))
  }

  lemma {:induction false} StartShift(r: Regex, lo: nat, to: nat)
    requires lo <= to
    ensures Start(r, to) == Start(r, lo) + (to - lo)
  {
    match r
    case Cat(p, q) => StartShift(p, lo, to);
    case Many(op, e) => StartShift(e, lo, to);
    case _ =>
  }

  function ShiftAll(ps: seq<nat>, count: nat): (qs: seq<nat>)
    ensures |qs| == |ps| && forall i :: 0 <= i < |ps| ==> qs[i] == ps[i] + count
  {
    seq(|ps|, i requires 0 <= i < |ps| => ps[i] + count)
  }

  lemma ShiftAllConcat(ps: seq<nat>, qs: seq<nat>, count: nat)
    ensures ShiftAll(ps + qs, count) == ShiftAll(ps, count) + ShiftAll(qs, count)
  {
  }

  lemma ShiftOne(p: nat, count: nat)
    ensures ShiftAll([p], count) == [p + count]
  {
  }

  lemma {:induction false} OutsShift(r: Regex, lo: nat, to: nat)
    requires lo <= to
    ensures Outs(r, to) == ShiftAll(Outs(r, lo), to - lo)
  {
    match r
    case Symbol(_) =>
    case Cat(p, q) => OutsShift(q, lo + Size(p), to + Size(p));
    case Alt(p, q) =>
      OutsShift(p, lo, to);
      OutsShift(q, lo + Size(p), to + Size(p));
      ShiftAllConcat(Outs(p, lo), Outs(q, lo + Size(p)), to - lo);
    case Many(op, e) =>
      OutsShift(e, lo, to);
      ShiftAllConcat(Outs(e, lo), [lo + Size(e)], to - lo);
      ShiftOne(lo + Size(e), to - lo);
  }

  /** The `n` states of `before` at `from` are copied to `to` in `after`, with their links moved along. */
  ghost predicate Copied(before: seq<State>, from: nat, n: nat, after: seq<State>, to: nat) {
    && from <= to && from + n <= |before| && to + n <= |after|
    && forall i :: to <= i < to + n ==> after[i] == ShiftedState(before[i - (to - from)], to - from)
  }

  lemma CopiedPart(before: seq<State>, from: nat, n: nat, after: seq<State>, to: nat, skip: nat, m: nat)
    requires Copied(before, from, n, after, to)
    requires skip + m <= n
    ensures Copied(before, from + skip, m, after, to + skip)
  {
    assert (to + skip) - (from + skip) == to - from;
  }

  lemma CopiedState(before: seq<State>, from: nat, n: nat, after: seq<State>, to: nat, i: nat)
    requires Copied(before, from, n, after, to)
    requires i < n
    ensures after[to + i] == ShiftedState(before[from + i], to - from)
  {
    assert after[to + i] == ShiftedState(before[to + i - (to - from)], to - from);
  }

  lemma {:induction false} ExitsShiftAlt(before: seq<State>, after: seq<State>, r: Regex, lo: nat, k: nat, to: nat,
                                         k': nat)
    requires Exits(before, r, lo, k) && r.Alt?
    requires Copied(before, lo, Size(r), after, to) && k' == k + (to - lo)
    ensures Exits(after, r, to, k')
    decreases r, 0
  {
    CopiedPart(before, lo, Size(r), after, to, 0, Size(r.left));
    ExitsShift(before, after, r.left, lo, k, to, k');
    CopiedPart(before, lo, Size(r), after, to, Size(r.left), Size(r.right));
    ExitsShift(before, after, r.right, lo + Size(r.left), k, to + Size(r.left), k');
  }

  lemma {:induction false} ExitsShift(before: seq<State>, after: seq<State>, r: Regex, lo: nat, k: nat, to: nat,
                                      k': nat)
    requires Exits(before, r, lo, k)
    requires Copied(before, lo, Size(r), after, to) && k' == k + (to - lo)
    ensures Exits(after, r, to, k')
    decreases r, 1
  {
    match r
    case Symbol(_) => CopiedState(before, lo, 1, after, to, 0);
    case Cat(p, q) =>
      CopiedPart(before, lo, Size(r), after, to, Size(p), Size(q));
      ExitsShift(before, after, q, lo + Size(p), k, to + Size(p), k');
    case Alt(p, q) => ExitsShiftAlt(before, after, r, lo, k, to, k');
    case Many(op, e) =>
      CopiedPart(before, lo, Size(r), after, to, 0, Size(e));
      if op == ZeroOrOne { ExitsShift(before, after, e, lo, k, to, k'); }
      CopiedState(before, lo, Size(r), after, to, Size(e));
  }

  lemma LinkedShiftCat(before: seq<State>, after: seq<State>, ranges: seq<Range>, r: Regex, lo: nat, to: nat)
    requires r.Cat? && Copied(before, lo, Size(r), after, to)
    requires Linked(before, ranges, r, lo)
    ensures Linked(after, ranges, r, to)
  {
    var p, q := r.left, r.right;
    StartShift(q, lo + Size(p), to + Size(p));
    CopiedPart(before, lo, Size(r), after, to, 0, Size(p));
    ExitsShift(before, after, p, lo, Start(q, lo + Size(p)), to, Start(q, to + Size(p)));
  }

  lemma LinkedShiftAlt(before: seq<State>, after: seq<State>, ranges: seq<Range>, r: Regex, lo: nat, to: nat)
    requires r.Alt? && Copied(before, lo, Size(r), after, to)
    requires Linked(before, ranges, r, lo)
    ensures Linked(after, ranges, r, to)
  {
    var p, q := r.left, r.right;
    StartShift(p, lo, to);
    StartShift(q, lo + Size(p), to + Size(p));
    CopiedState(before, lo, Size(r), after, to, Size(p) + Size(q));
    assert to + (Size(p) + Size(q)) == to + Size(p) + Size(q);
  }

  lemma LinkedShiftMany(before: seq<State>, after: seq<State>, ranges: seq<Range>, r: Regex, lo: nat, to: nat)
    requires r.Many? && Copied(before, lo, Size(r), after, to)
    requires Linked(before, ranges, r, lo)
    ensures Linked(after, ranges, r, to)
  {
    StartShift(r.e, lo, to);
    CopiedState(before, lo, Size(r), after, to, Size(r.e));
    if r.op != ZeroOrOne {
      CopiedPart(before, lo, Size(r), after, to, 0, Size(r.e));
      ExitsShift(before, after, r.e, lo, lo + Size(r.e), to, to + Size(r.e));
    }
  }

  lemma LinkedShift(before: seq<State>, after: seq<State>, ranges: seq<Range>, r: Regex, lo: nat, to: nat)
    requires Copied(before, lo, Size(r), after, to)
    requires Linked(before, ranges, r, lo)
    ensures Linked(after, ranges, r, to)
  {
    if r.Symbol? {
      CopiedState(before, lo, 1, after, to, 0);
    } else if r.Cat? {
      LinkedShiftCat(before, after, ranges, r, lo, to);
    } else if r.Alt? {
      LinkedShiftAlt(before, after, ranges, r, lo, to);
    } else {
      LinkedShiftMany(before, after, ranges, r, lo, to);
    }
  }

  lemma CopiedOperands(before: seq<State>, after: seq<State>, r: Regex, lo: nat, to: nat)
    requires Copied(before, lo, Size(r), after, to)
    ensures r.Cat? || r.Alt? ==>
              && Copied(before, lo, Size(r.left), after, to)
              && Copied(before, lo + Size(r.left), Size(r.right), after, to + Size(r.left))
    ensures r.Many? ==> Copied(before, lo, Size(r.e), after, to)
  {
    if r.Cat? || r.Alt? {
      CopiedPart(before, lo, Size(r), after, to, Size(r.left), Size(r.right));
    }
  }

  lemma {:induction false} ShapeShift(before: seq<State>, after: seq<State>, ranges: seq<Range>, r: Regex, lo: nat,
                                      to: nat)
    requires Shape(before, ranges, r, lo)
    requires Copied(before, lo, Size(r), after, to)
    ensures Shape(after, ranges, r, to)
  {
    LinkedShift(before, after, ranges, r, lo, to);
    CopiedOperands(before, after, r, lo, to);
    if r.Cat? || r.Alt? {
      ShapeShift(before, after, ranges, r.left, lo, to);
      ShapeShift(before, after, ranges, r.right, lo + Size(r.left), to + Size(r.left));
    } else if r.Many? {
      ShapeShift(before, after, ranges, r.e, lo, to);
    }
  }

  /// ## The operand stack

  /** The operand fragments partition the whole state array: the fragment of the last operand ends
      at the last state, and everything before its `minIndex` belongs to the operands below it. */
  ghost predicate Represents(states: seq<State>, ranges: seq<Range>, frags: seq<Frag>, rs: seq<Regex>) {
    if rs == [] then
      frags == [] && states == []
    else
      var r := rs[|rs| - 1];
      && frags != []
      && |states| >= Size(r)
      && var lo := |states| - Size(r);
      && FragmentAt(states, ranges, frags[|frags| - 1], r, lo)
      && Represents(states[..lo], ranges, frags[..|frags| - 1], rs[..|rs| - 1])
  }

  ghost predicate FragmentAt(states: seq<State>, ranges: seq<Range>, f: Frag, r: Regex, lo: nat) {
    && f == Frag(Start(r, lo), Outs(r, lo)[0], lo)
    && Shape(states, ranges, r, lo)
    && Chained(states, Outs(r, lo))
  }

  lemma {:induction false} RepresentsSizes(states: seq<State>, ranges: seq<Range>, frags: seq<Frag>, rs: seq<Regex>)
    requires Represents(states, ranges, frags, rs)
    ensures |frags| == |rs|
    decreases |rs|
  {
    if rs != [] {
      RepresentsSizes(states[..|states| - Size(rs[|rs| - 1])], ranges, frags[..|frags| - 1], rs[..|rs| - 1]);
    }
  }

  lemma {:induction false} RepresentsMoreRanges(states: seq<State>, ranges: seq<Range>, moreRanges: seq<Range>,
                                                frags: seq<Frag>, rs: seq<Regex>)
    requires Represents(states, ranges, frags, rs)
    requires ranges <= moreRanges
    ensures Represents(states, moreRanges, frags, rs)
    decreases |rs|
  {
    if rs != [] {
      var r := rs[|rs| - 1];
      var lo := |states| - Size(r);
      ShapeSame(states, states, ranges, moreRanges, r, lo);
      RepresentsMoreRanges(states[..lo], ranges, moreRanges, frags[..|frags| - 1], rs[..|rs| - 1]);
    }
  }

  /** Pushing a fragment built entirely above the present states. */
  lemma RepresentsPush(below: seq<State>, states: seq<State>, ranges: seq<Range>,
                       frags: seq<Frag>, rs: seq<Regex>, f: Frag, r: Regex)
    requires Represents(below, ranges, frags, rs)
    requires below <= states && |states| == |below| + Size(r)
    requires FragmentAt(states, ranges, f, r, |below|)
    ensures Represents(states, ranges, frags + [f], rs + [r])
  {
    assert states[..|below|] == below;
    var frags', rs' := frags + [f], rs + [r];
    assert frags'[..|frags'| - 1] == frags;
    assert rs'[..|rs'| - 1] == rs;
  }
}
