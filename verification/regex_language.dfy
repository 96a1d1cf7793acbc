/** Regular expressions over code points and the languages they denote.

  `Pattern` is the concrete syntax that the engine documents, with its rendering as text and its
  meaning; `Regex` is the core calculus that the compiler turns into automaton states. */
module RegexLanguage {

  /** A decoded, non-terminating code point. */
  type CodePoint = c: int | 0 < c <= 0x10FFFF witness 1
  type Text = seq<CodePoint>

  datatype Interval = Interval(first: CodePoint, last: CodePoint)

  datatype Sym =
    | Exact(c: CodePoint)
    | Any
    | Class(negated: bool, items: seq<Interval>)

  predicate InSome(items: seq<Interval>, c: CodePoint) {
    exists i :: 0 <= i < |items| && items[i].first <= c <= items[i].last
  }

  predicate Accepts(sym: Sym, c: CodePoint) {
    match sym
    case Exact(d) => c == d
    case Any => true
    case Class(negated, items) => InSome(items, c) != negated
  }

  /// ## The core calculus

  datatype Postfix = ZeroOrOne | ZeroOrMore | OneOrMore

  datatype Regex =
    | Symbol(sym: Sym)
    | Cat(left: Regex, right: Regex)
    | Alt(left: Regex, right: Regex)
    | Many(op: Postfix, e: Regex)

  ghost predicate Member(r: Regex, w: Text)
    decreases r, |w|, 0
  {
    match r
    case Symbol(sym) => |w| == 1 && Accepts(sym, w[0])
    case Cat(p, q) => exists i :: 0 <= i <= |w| && Member(p, w[..i]) && Member(q, w[i..])
    case Alt(p, q) => Member(p, w) || Member(q, w)
    case Many(ZeroOrOne, e) => w == [] || Member(e, w)
    case Many(ZeroOrMore, e) => Iterated(e, w)
    case Many(OneOrMore, e) => exists i :: 0 <= i <= |w| && Member(e, w[..i]) && Iterated(e, w[i..])
  }

  /** `w` is a concatenation of words of `e`. Empty pieces add nothing, so they are left out. */
  ghost predicate Iterated(e: Regex, w: Text)
    decreases e, |w|, 1
  {
    w == [] || exists i :: 0 < i <= |w| && Member(e, w[..i]) && Iterated(e, w[i..])
  }

  predicate Nullable(r: Regex) {
    match r
    case Symbol(_) => false
    case Cat(p, q) => Nullable(p) && Nullable(q)
    case Alt(p, q) => Nullable(p) || Nullable(q)
    case Many(op, e) => op != OneOrMore || Nullable(e)
  }

  /** No `*` or `+` is applied to an operand that matches the empty text. */
  predicate LoopsProgress(r: Regex) {
    match r
    case Symbol(_) => true
    case Cat(p, q) => LoopsProgress(p) && LoopsProgress(q)
    case Alt(p, q) => LoopsProgress(p) && LoopsProgress(q)
    case Many(op, e) => (op == ZeroOrOne || !Nullable(e)) && LoopsProgress(e)
  }

  lemma {:induction false} NullableIsEmptyMember(r: Regex)
    ensures Nullable(r) <==> Member(r, [])
  {
    match r
    case Symbol(_) =>
    case Cat(p, q) =>
      NullableIsEmptyMember(p);
      NullableIsEmptyMember(q);
      var w: Text := [];
      assert w[..0] == w && w[0..] == w;
    case Alt(p, q) =>
      NullableIsEmptyMember(p);
      NullableIsEmptyMember(q);
    case Many(op, e) =>
      NullableIsEmptyMember(e);
      var w: Text := [];
      assert w[..0] == w && w[0..] == w;
  }

  /** The usual definition of iteration: `w` splits into any number of words of `e`. */
  ghost predicate AllMembers(e: Regex, pieces: seq<Text>) {
    forall i :: 0 <= i < |pieces| ==> Member(e, pieces[i])
  }

  function Joined(pieces: seq<Text>): Text {
    if pieces == [] then [] else pieces[0] + Joined(pieces[1..])
  }

  lemma {:induction false} PiecesAreIterated(e: Regex, pieces: seq<Text>)
    requires AllMembers(e, pieces)
    ensures Iterated(e, Joined(pieces))
  {
    if pieces != [] {
      PiecesAreIterated(e, pieces[1..]);
      var w, i := Joined(pieces), |pieces[0]|;
      assert w[..i] == pieces[0] && w[i..] == Joined(pieces[1..]);
    }
  }

  lemma {:induction false} IteratedHasPieces(e: Regex, w: Text) returns (pieces: seq<Text>)
    requires Iterated(e, w)
    ensures AllMembers(e, pieces) && Joined(pieces) == w
    decreases |w|
  {
    if w == [] {
      pieces := [];
    } else {
      var i :| 0 < i <= |w| && Member(e, w[..i]) && Iterated(e, w[i..]);
      var rest := IteratedHasPieces(e, w[i..]);
      pieces := [w[..i]] + rest;
      assert pieces[1..] == rest;
    }
  }

  /** `Iterated` is the Kleene closure. */
  lemma IteratedIsClosure(e: Regex, w: Text)
    ensures Iterated(e, w) <==> exists pieces :: AllMembers(e, pieces) && Joined(pieces) == w
  {
    if Iterated(e, w) {
      var pieces := IteratedHasPieces(e, w);
    }
    forall pieces | AllMembers(e, pieces) && Joined(pieces) == w
      ensures Iterated(e, w)
    {
      PiecesAreIterated(e, pieces);
    }
  }

  /** The slices that the two ways of nesting a three-part split produce. */
  lemma Slices(w: Text, i: nat, j: nat)
    requires i <= j <= |w|
    ensures w[..j][..i] == w[..i]
    ensures w[..j][i..] == w[i..][..j - i]
    ensures w[i..][j - i..] == w[j..]
  {
  }

  lemma ConsConcat<T>(rs: seq<T>, ss: seq<T>)
    requires rs != []
    ensures [rs[0]] + (rs[1..] + ss) == rs + ss
  {
  }
}
