/** The expression built for a pattern denotes the language of the pattern. */
module RegexMeaning {
  import opened RegexLanguage
  import opened RegexYard
  import opened RegexPattern

  /// ## Powers of an expression

  ghost predicate RPower(r: Regex, n: nat, w: Text) {
    if n == 0 then w == []
    else exists i :: 0 <= i <= |w| && Member(r, w[..i]) && RPower(r, n - 1, w[i..])
  }

  lemma {:induction false} IteratedIsSomePower(r: Regex, w: Text) returns (n: nat)
    requires Iterated(r, w)
    ensures RPower(r, n, w)
    decreases |w|
  {
    if w == [] {
      n := 0;
    } else {
      var i :| 0 < i <= |w| && Member(r, w[..i]) && Iterated(r, w[i..]);
      var k := IteratedIsSomePower(r, w[i..]);
      n := k + 1;
    }
  }

  lemma {:induction false} PowerIsIterated(r: Regex, n: nat, w: Text)
    requires RPower(r, n, w)
    ensures Iterated(r, w)
  {
    if n > 0 && w != [] {
      var i :| 0 <= i <= |w| && Member(r, w[..i]) && RPower(r, n - 1, w[i..]);
      PowerIsIterated(r, n - 1, w[i..]);
      if i == 0 {
        assert w[0..] == w;
      }
    }
  }

  ghost predicate SomePower(r: Regex, least: nat, w: Text) {
    exists n: nat :: least <= n && RPower(r, n, w)
  }

  lemma IteratedIffPower(r: Regex, w: Text)
    ensures Iterated(r, w) <==> SomePower(r, 0, w)
  {
    if Iterated(r, w) {
      var n := IteratedIsSomePower(r, w);
      assert 0 <= n && RPower(r, n, w);
    }
    if SomePower(r, 0, w) {
      var n: nat :| 0 <= n && RPower(r, n, w);
      PowerIsIterated(r, n, w);
    }
  }

  /// ## Lists of expressions

  ghost predicate Words(rs: seq<Regex>, w: Text) {
    if rs == [] then w == []
    else exists i :: 0 <= i <= |w| && Member(rs[0], w[..i]) && Words(rs[1..], w[i..])
  }

  lemma {:induction false} CatAllIsWords(rs: seq<Regex>, w: Text)
    requires rs != []
    ensures Member(CatAll(rs), w) <==> Words(rs, w)
    decreases |rs|
  {
    if |rs| == 1 {
      assert rs[1..] == [];
      assert w[..|w|] == w && w[|w|..] == [];
      if Words(rs, w) {
        var i :| 0 <= i <= |w| && Member(rs[0], w[..i]) && Words(rs[1..], w[i..]);
        assert i == |w|;
      }
    } else {
      forall i | 0 <= i <= |w|
        ensures Member(CatAll(rs[1..]), w[i..]) <==> Words(rs[1..], w[i..])
      {
        CatAllIsWords(rs[1..], w[i..]);
      }
    }
  }

  lemma WordsCons(r: Regex, rs: seq<Regex>, w: Text, i: nat)
    requires i <= |w| && Member(r, w[..i]) && Words(rs, w[i..])
    ensures Words([r] + rs, w)
  {
    assert ([r] + rs)[1..] == rs;
  }

  lemma {:induction false} WordsJoin(rs: seq<Regex>, ss: seq<Regex>, w: Text, j: nat)
    requires j <= |w| && Words(rs, w[..j]) && Words(ss, w[j..])
    ensures Words(rs + ss, w)
    decreases |rs|
  {
    if rs == [] {
      assert rs + ss == ss && w[j..] == w;
    } else {
      var head := w[..j];
      var i :| 0 <= i <= |head| && Member(rs[0], head[..i]) && Words(rs[1..], head[i..]);
      Slices(w, i, j);
      WordsJoin(rs[1..], ss, w[i..], j - i);
      WordsCons(rs[0], rs[1..] + ss, w, i);
      ConsConcat(rs, ss);
    }
  }

  lemma {:induction false} WordsSplit(rs: seq<Regex>, ss: seq<Regex>, w: Text) returns (j: nat)
    requires Words(rs + ss, w)
    ensures j <= |w| && Words(rs, w[..j]) && Words(ss, w[j..])
    decreases |rs|
  {
    if rs == [] {
      j := 0;
      assert rs + ss == ss && w[0..] == w;
    } else {
      assert (rs + ss)[1..] == rs[1..] + ss;
      var i :| 0 <= i <= |w| && Member(rs[0], w[..i]) && Words(rs[1..] + ss, w[i..]);
      var k := WordsSplit(rs[1..], ss, w[i..]);
      j := i + k;
      Slices(w, i, j);
    }
  }

  lemma {:induction false} WordsOfCopies(r: Regex, n: nat, w: Text)
    ensures Words(Copies(r, n), w) <==> RPower(r, n, w)
  {
    if n > 0 {
      assert Copies(r, n)[1..] == Copies(r, n - 1);
      forall i | 0 <= i <= |w|
        ensures Words(Copies(r, n - 1), w[i..]) <==> RPower(r, n - 1, w[i..])
      {
        WordsOfCopies(r, n - 1, w[i..]);
      }
    }
  }

  lemma {:induction false} PowerJoin(r: Regex, n: nat, k: nat, w: Text, j: nat)
    requires j <= |w| && RPower(r, n, w[..j]) && RPower(r, k, w[j..])
    ensures RPower(r, n + k, w)
  {
    if n == 0 {
      assert w[j..] == w;
    } else {
      var i :| 0 <= i <= j && Member(r, w[..j][..i]) && RPower(r, n - 1, w[..j][i..]);
      Slices(w, i, j);
      PowerJoin(r, n - 1, k, w[i..], j - i);
    }
  }

  lemma PowerCons(r: Regex, n: nat, w: Text, i: nat)
    requires i <= |w| && Member(r, w[..i]) && RPower(r, n, w[i..])
    ensures RPower(r, n + 1, w)
  {
  }

  lemma {:induction false} PowerSplit(r: Regex, n: nat, k: nat, w: Text) returns (j: nat)
    requires RPower(r, n + k, w)
    ensures j <= |w| && RPower(r, n, w[..j]) && RPower(r, k, w[j..])
  {
    if n == 0 {
      j := 0;
      assert w[0..] == w;
    } else {
      var i :| 0 <= i <= |w| && Member(r, w[..i]) && RPower(r, n + k - 1, w[i..]);
      var j' := PowerSplit(r, n - 1, k, w[i..]);
      j := i + j';
      Slices(w, i, j);
      PowerCons(r, n - 1, w[..j], i);
    }
  }

  /** `n` optional copies denote up to `n` repetitions. */
  lemma {:induction false} OptionalPower(r: Regex, n: nat, w: Text) returns (k: nat)
    requires RPower(Many(ZeroOrOne, r), n, w)
    ensures k <= n && RPower(r, k, w)
  {
    if n == 0 {
      k := 0;
    } else {
      var opt := Many(ZeroOrOne, r);
      var i :| 0 <= i <= |w| && Member(opt, w[..i]) && RPower(opt, n - 1, w[i..]);
      var k' := OptionalPower(r, n - 1, w[i..]);
      if w[..i] == [] {
        k := k';
        assert w[i..] == w;
      } else {
        k := k' + 1;
      }
    }
  }

  lemma {:induction false} PowerIsOptional(r: Regex, k: nat, n: nat, w: Text)
    requires k <= n && RPower(r, k, w)
    ensures RPower(Many(ZeroOrOne, r), n, w)
    decreases n
  {
    var opt := Many(ZeroOrOne, r);
    if k > 0 {
      var i :| 0 <= i <= |w| && Member(r, w[..i]) && RPower(r, k - 1, w[i..]);
      PowerIsOptional(r, k - 1, n - 1, w[i..]);
      assert Member(opt, w[..i]);
    } else if n > 0 {
      PowerIsOptional(r, 0, n - 1, w);
      assert w[..0] == [] && w[0..] == w;
      assert Member(opt, w[..0]);
    }
  }

  /// ## Quantifiers

  ghost predicate PowerBetween(r: Regex, n: nat, m: nat, w: Text) {
    exists k: nat :: n <= k <= m && RPower(r, k, w)
  }

  lemma WordsAreBetween(r: Regex, n: nat, m: nat, w: Text)
    requires n <= m
    requires Words(Copies(r, n) + Copies(Many(ZeroOrOne, r), m - n), w)
    ensures PowerBetween(r, n, m, w)
  {
    var opt := Many(ZeroOrOne, r);
    var j := WordsSplit(Copies(r, n), Copies(opt, m - n), w);
    WordsOfCopies(r, n, w[..j]);
    WordsOfCopies(opt, m - n, w[j..]);
    var k := OptionalPower(r, m - n, w[j..]);
    PowerJoin(r, n, k, w, j);
    assert n <= n + k <= m && RPower(r, n + k, w);
  }

  lemma BetweenAreWords(r: Regex, n: nat, m: nat, w: Text)
    requires n <= m
    requires PowerBetween(r, n, m, w)
    ensures Words(Copies(r, n) + Copies(Many(ZeroOrOne, r), m - n), w)
  {
    var opt := Many(ZeroOrOne, r);
    var k: nat :| n <= k <= m && RPower(r, k, w);
    var j := PowerSplit(r, n, k - n, w);
    PowerIsOptional(r, k - n, m - n, w[j..]);
    WordsOfCopies(r, n, w[..j]);
    WordsOfCopies(opt, m - n, w[j..]);
    WordsJoin(Copies(r, n), Copies(opt, m - n), w, j);
  }

  lemma PlusIsPower(r: Regex, w: Text)
    ensures Member(Many(OneOrMore, r), w) <==> SomePower(r, 1, w)
  {
    if Member(Many(OneOrMore, r), w) {
      var i :| 0 <= i <= |w| && Member(r, w[..i]) && Iterated(r, w[i..]);
      var k := IteratedIsSomePower(r, w[i..]);
      assert 1 <= k + 1 && RPower(r, k + 1, w);
    }
    if SomePower(r, 1, w) {
      var k: nat :| 1 <= k && RPower(r, k, w);
      var i :| 0 <= i <= |w| && Member(r, w[..i]) && RPower(r, k - 1, w[i..]);
      PowerIsIterated(r, k - 1, w[i..]);
    }
  }

  lemma PowerIsSome(r: Regex, least: nat, k: nat, w: Text)
    requires least <= k && RPower(r, k, w)
    ensures SomePower(r, least, w)
  {
  }

  lemma WordsAreAtLeast(r: Regex, n: nat, w: Text)
    requires n > 0
    requires Words(Copies(r, n - 1) + [Many(OneOrMore, r)], w)
    ensures SomePower(r, n, w)
  {
    var plus := Many(OneOrMore, r);
    var j := WordsSplit(Copies(r, n - 1), [plus], w);
    WordsOfCopies(r, n - 1, w[..j]);
    CatAllIsWords([plus], w[j..]);
    PlusIsPower(r, w[j..]);
    var k: nat :| 1 <= k && RPower(r, k, w[j..]);
    PowerJoin(r, n - 1, k, w, j);
    PowerIsSome(r, n, n - 1 + k, w);
  }

  lemma AtLeastAreWords(r: Regex, n: nat, w: Text)
    requires n > 0
    requires SomePower(r, n, w)
    ensures Words(Copies(r, n - 1) + [Many(OneOrMore, r)], w)
  {
    var plus := Many(OneOrMore, r);
    var k: nat :| n <= k && RPower(r, k, w);
    var j := PowerSplit(r, n - 1, k - (n - 1), w);
    assert SomePower(r, 1, w[j..]);
    PlusIsPower(r, w[j..]);
    WordsOfCopies(r, n - 1, w[..j]);
    CatAllIsWords([plus], w[j..]);
    WordsJoin(Copies(r, n - 1), [plus], w, j);
  }

  /** The operands that a quantifier leaves, concatenated, denote `n` to `m` repetitions. */
  lemma QuantifierMeaning(r: Regex, n: nat, m: nat, w: Text)
    requires n <= m && m != 0
    ensures m == INFINITY_QUANTIFIER ==>
              (Member(CatAll(QuantifiedOperands(r, n, m)), w) <==> SomePower(r, n, w))
    ensures m != INFINITY_QUANTIFIER ==>
              (Member(CatAll(QuantifiedOperands(r, n, m)), w) <==> PowerBetween(r, n, m, w))
  {
    var rs := QuantifiedOperands(r, n, m);
    CatAllIsWords(rs, w);
    if m != INFINITY_QUANTIFIER {
      assert rs == Copies(r, n) + Copies(Many(ZeroOrOne, r), m - n);
      if Words(rs, w) {
        WordsAreBetween(r, n, m, w);
      }
      if PowerBetween(r, n, m, w) {
        BetweenAreWords(r, n, m, w);
      }
    } else if n > 0 {
      if Words(rs, w) {
        WordsAreAtLeast(r, n, w);
      }
      if SomePower(r, n, w) {
        AtLeastAreWords(r, n, w);
      }
    } else {
      IteratedIffPower(r, w);
    }
  }

  /// ## Tokens

  lemma {:induction false} IntervalAt(items: seq<Item>, afterSingle: bool, i: nat)
    requires ItemsOk(items, afterSingle) && i < |items|
    ensures CharValue(FirstChar(items[i])).Some? && (items[i].Span? ==> CharValue(items[i].to).Some?)
    ensures Intervals(items, afterSingle)[i] == ItemInterval(items[i])
    decreases i
  {
    if i > 0 { IntervalAt(items[1..], items[0].Single?, i - 1); }
  }

  lemma ItemMeaning(items: seq<Item>, c: CodePoint, i: nat)
    requires ItemsOk(items, false) && i < |items|
    ensures CharValue(FirstChar(items[i])).Some? && (items[i].Span? ==> CharValue(items[i].to).Some?)
    ensures ItemHolds(items[i], c) <==> Intervals(items, false)[i].first <= c <= Intervals(items, false)[i].last
  {
    IntervalAt(items, false, i);
  }

  /** The symbol of a token accepts what the token stands for. */
  lemma TokenMeaning(token: Token, c: CodePoint)
    requires TokenOk(token)
    ensures Stands(token, c) <==> Accepts(TokenSym(token), c)
  {
    if token.Brackets? {
      var intervals := Intervals(token.items, false);
      forall i | 0 <= i < |token.items| { ItemMeaning(token.items, c, i); }
      var all := intervals + if token.trailingDash then [Interval('-' as int, '-' as int)] else [];
      assert forall i :: 0 <= i < |intervals| ==> all[i] == intervals[i];
      assert token.trailingDash ==> all[|intervals|] == Interval('-' as int, '-' as int);
    }
  }

  /// ## Patterns

  ghost predicate SameLanguage(p: Pattern)
    requires WellFormed(p)
  {
    forall w :: Denotes(p, w) <==> Member(Expression(p), w)
  }

  lemma {:induction false} SamePower(p: Pattern, n: nat, w: Text)
    requires WellFormed(p) && SameLanguage(p)
    ensures Power(p, n, w) <==> RPower(Expression(p), n, w)
  {
    if n > 0 {
      forall i | 0 <= i <= |w|
        ensures Power(p, n - 1, w[i..]) <==> RPower(Expression(p), n - 1, w[i..])
      {
        SamePower(p, n - 1, w[i..]);
      }
    }
  }

  lemma PostfixMeaning(r: Regex, op: Postfix, w: Text)
    ensures op == ZeroOrOne ==> (Member(Many(op, r), w) <==> PowerBetween(r, 0, 1, w))
    ensures op == ZeroOrMore ==> (Member(Many(op, r), w) <==> SomePower(r, 0, w))
    ensures op == OneOrMore ==> (Member(Many(op, r), w) <==> SomePower(r, 1, w))
  {
    match op
    case ZeroOrOne =>
      OncePower(r, w);
      assert RPower(r, 0, w) <==> w == [];
      if PowerBetween(r, 0, 1, w) {
        var k: nat :| 0 <= k <= 1 && RPower(r, k, w);
        assert k == 0 || k == 1;
      }
    case ZeroOrMore => IteratedIffPower(r, w);
    case OneOrMore => PlusIsPower(r, w);
  }

  lemma OncePower(r: Regex, w: Text)
    ensures RPower(r, 1, w) <==> Member(r, w)
  {
    assert w[..|w|] == w && w[|w|..] == [];
    if RPower(r, 1, w) {
      var i :| 0 <= i <= |w| && Member(r, w[..i]) && RPower(r, 0, w[i..]);
      assert i == |w|;
    } else if Member(r, w) {
      assert RPower(r, 0, w[|w|..]);
    }
  }

  /** Repetition of a pattern and of its expression agree, with or without an upper bound. */
  lemma SameRepetition(p: Pattern, n: nat, m: nat, bounded: bool, w: Text)
    requires WellFormed(p) && SameLanguage(p)
    ensures Repeats(p, n, bounded, m, w) <==>
            (if bounded then PowerBetween(Expression(p), n, m, w) else SomePower(Expression(p), n, w))
  {
    if Repeats(p, n, bounded, m, w) {
      var k: nat :| Within(k, n, bounded, m) && Power(p, k, w);
      SamePower(p, k, w);
      assert n <= k && RPower(Expression(p), k, w);
    }
    if bounded && PowerBetween(Expression(p), n, m, w) {
      var k: nat :| n <= k <= m && RPower(Expression(p), k, w);
      SamePower(p, k, w);
      assert Within(k, n, bounded, m);
    }
    if !bounded && SomePower(Expression(p), n, w) {
      var k: nat :| n <= k && RPower(Expression(p), k, w);
      SamePower(p, k, w);
      assert Within(k, n, bounded, m);
    }
  }

  /** The meaning of a pattern is the language of its expression. */
  lemma {:induction false} DenotesIffMember(p: Pattern, w: Text)
    requires WellFormed(p)
    ensures Denotes(p, w) <==> Member(Expression(p), w)
    decreases p
  {
    match p
    case Leaf(token) => if |w| == 1 { TokenMeaning(token, w[0]); }
    case Group(q) => DenotesIffMember(q, w);
    case Then(q, q') =>
      forall i | 0 <= i <= |w|
        ensures Denotes(q, w[..i]) <==> Member(Expression(q), w[..i])
        ensures Denotes(q', w[i..]) <==> Member(Expression(q'), w[i..])
      {
        DenotesIffMember(q, w[..i]);
        DenotesIffMember(q', w[i..]);
      }
    case Or(q, q') =>
      DenotesIffMember(q, w);
      DenotesIffMember(q', w);
    case Quantified(q, op) =>
      forall w' ensures Denotes(q, w') <==> Member(Expression(q), w') { DenotesIffMember(q, w'); }
      SameRepetition(q, if op == OneOrMore then 1 else 0, 1, op == ZeroOrOne, w);
      PostfixMeaning(Expression(q), op, w);
    case Repeated(q, bounds) =>
      forall w' ensures Denotes(q, w') <==> Member(Expression(q), w') { DenotesIffMember(q, w'); }
      SameRepetition(q, Lower(bounds), Upper(bounds), !bounds.AtLeast?, w);
      QuantifierMeaning(Expression(q), Lower(bounds), Upper(bounds), w);
  }
}
