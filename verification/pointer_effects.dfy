/** What setting and erasing make of the document, container by container and pointer by pointer. */
module PointerEffects {
  import opened JsonText
  import opened JsonDocument
  import opened PointerTree
  import opened Wrappers

  /// ## Containers, position by position

  /** The token leads to position `i` of the container: the first member of the name, or the element of
      the index. */
  predicate Selects(c: Value, t: Token, i: nat) {
    match c
    case ObjectValue(members) =>
      i < |members| && members[i].name == t.name && forall j :: 0 <= j < i ==> members[j].name != t.name
    case ArrayValue(elements) => t.index != 0xFFFF_FFFF && i == t.index < |elements|
    case _ => false
  }

  /** The value at position `i`. */
  predicate Holds(c: Value, i: nat, x: Value) {
    match c
    case ObjectValue(members) => i < |members| && members[i].value == x
    case ArrayValue(elements) => i < |elements| && elements[i] == x
    case _ => false
  }

  /** `d` is `c` with `x` in place of the value at position `i`. */
  predicate Replaces(c: Value, i: nat, x: Value, d: Value) {
    match c
    case ObjectValue(members) =>
      && d.ObjectValue? && i < |members| == |d.members| && d.members[i] == Member(members[i].name, x)
      && forall j :: 0 <= j < |members| && j != i ==> d.members[j] == members[j]
    case ArrayValue(elements) =>
      && d.ArrayValue? && i < |elements| == |d.elements| && d.elements[i] == x
      && forall j :: 0 <= j < |elements| && j != i ==> d.elements[j] == elements[j]
    case _ => false
  }

  /** `d` is `c` without position `i`; what is behind it moves up. */
  predicate Drops(c: Value, i: nat, d: Value) {
    match c
    case ObjectValue(members) =>
      && d.ObjectValue? && i < |members| && |d.members| == |members| - 1
      && forall j :: 0 <= j < |d.members| ==> d.members[j] == members[if j < i then j else j + 1]
    case ArrayValue(elements) =>
      && d.ArrayValue? && i < |elements| && |d.elements| == |elements| - 1
      && forall j :: 0 <= j < |d.elements| ==> d.elements[j] == elements[if j < i then j else j + 1]
    case _ => false
  }

  /** `d` is the array `elements` lengthened by nulls up to the index, where `x` is. */
  predicate Lengthens(elements: seq<Value>, index: nat, x: Value, d: Value) {
    && d.ArrayValue? && |d.elements| == index + 1 > |elements| && d.elements[index] == x
    && forall j :: 0 <= j < index ==> d.elements[j] == if j < |elements| then elements[j] else NullValue
  }

  /** What `Set` makes of the value that a token is applied to, when `x` comes to be below the token. */
  ghost predicate Makes(c: Value, t: Token, x: Value, d: Value) {
    match c
    case ObjectValue(members) =>
      if exists i :: Selects(c, t, i) then exists i :: Selects(c, t, i) && Replaces(c, i, x, d)
      else d == ObjectValue(members + [Member(t.name, x)])
    case ArrayValue(elements) =>
      if t.name == [0x2D] then d == ArrayValue(elements + [x])
      else if t.index == 0xFFFF_FFFF then d == ObjectValue([Member(t.name, x)])
      else if t.index < |elements| then Replaces(c, t.index, x, d)
      else Lengthens(elements, t.index, x, d)
    case _ =>
      if t.index == 0xFFFF_FFFF then d == ObjectValue([Member(t.name, x)])
      else Lengthens([], t.index, x, d)
  }

  lemma SelectsChild(c: Value, t: Token)
    ensures Child(c, t).Some? ==> exists i :: Selects(c, t, i) && Holds(c, i, Child(c, t).value)
    ensures Child(c, t).None? ==> forall i :: !Selects(c, t, i)
  {
    if c.ObjectValue? {
      var i := FindMember(c.members, t.name);
      assert i < |c.members| ==> Selects(c, t, i) && Holds(c, i, c.members[i].value);
    } else if c.ArrayValue? && Child(c, t).Some? {
      assert Selects(c, t, t.index) && Holds(c, t.index, c.elements[t.index]);
    }
  }

  lemma SelectsOne(c: Value, t: Token, i: nat, j: nat)
    requires Selects(c, t, i) && Selects(c, t, j)
    ensures i == j
  {
  }

  lemma PlacedMakes(c: Value, t: Token, x: Value)
    requires ValidTokens([t])
    ensures Makes(c, t, x, Placed(c, t, x))
  {
    assert [t][0] == t;
    var d := Placed(c, t, x);
    match c
    case ObjectValue(members) =>
      var i := FindMember(members, t.name);
      if i < |members| {
        assert Selects(c, t, i) && Replaces(c, i, x, d);
      }
    case ArrayValue(elements) =>
    case _ =>
  }

  lemma PlacedReplaces(c: Value, t: Token, i: nat, x: Value)
    requires ValidTokens([t]) && Selects(c, t, i)
    ensures Replaces(c, i, x, Placed(c, t, x))
  {
    assert [t][0] == t;
    if c.ObjectValue? {
      SelectsOne(c, t, i, FindMember(c.members, t.name));
    }
  }

  lemma WithoutDrops(c: Value, t: Token, i: nat)
    requires Selects(c, t, i)
    ensures Without(c, t).Some? && Drops(c, i, Without(c, t).value)
  {
    if c.ObjectValue? {
      SelectsOne(c, t, i, FindMember(c.members, t.name));
    }
  }

  /// ## Along the pointer

  /** The tokens lead from `v`, position by position, to `w`. */
  ghost predicate Leads(v: Value, ts: Pointer, w: Value)
    decreases |ts|
  {
    if ts == [] then v == w
    else exists i, x :: Selects(v, ts[0], i) && Holds(v, i, x) && Leads(x, ts[1..], w)
  }

  /** `Get` finds a value exactly if the tokens lead to it. */
  lemma {:induction false} ResolveIff(v: Value, ts: Pointer, w: Value)
    ensures Resolve(v, ts) == Some(w) <==> Leads(v, ts, w)
    decreases |ts|
  {
    if ts != [] {
      var t := ts[0];
      SelectsChild(v, t);
      if Child(v, t).Some? {
        ResolveIff(Child(v, t).value, ts[1..], w);
        var j :| Selects(v, t, j) && Holds(v, j, Child(v, t).value);
        forall i, x | Selects(v, t, i) && Holds(v, i, x)
          ensures x == Child(v, t).value
        {
          SelectsOne(v, t, i, j);
        }
      }
    }
  }

  lemma {:induction false} ResolveJoins(v: Value, ts: Pointer, us: Pointer)
    ensures Resolve(v, ts + us) == if Resolve(v, ts).Some? then Resolve(Resolve(v, ts).value, us) else None
    decreases |ts|
  {
    if ts == [] {
      assert ts + us == us;
    } else if Child(v, ts[0]).Some? {
      assert (ts + us)[0] == ts[0] && (ts + us)[1..] == ts[1..] + us;
      ResolveJoins(Child(v, ts[0]).value, ts[1..], us);
    }
  }

  lemma {:induction false} SetBelow(v: Value, ts: Pointer, k: nat, value: Value)
    requires ValidTokens(ts) && k <= |ts| && Resolve(v, ts[..k]).Some?
    ensures Resolve(Set(v, ts, value), ts[..k]) == Some(Set(Resolve(v, ts[..k]).value, ts[k..], value))
    decreases k
  {
    if k > 0 {
      var t := ts[0];
      assert ValidTokens([t]);
      assert ts[..k][0] == t && ts[..k][1..] == ts[1..][..k - 1] && ts[1..][k - 1..] == ts[k..];
      SetBelow(Child(v, t).value, ts[1..], k - 1, value);
      PlacedChild(v, t, Set(Child(v, t).value, ts[1..], value));
    } else {
      assert ts[0..] == ts;
    }
  }

  /** Wherever the pointer has led before: the value there has become what `Makes` says of the next token.
      Below the token is what setting the rest of the pointer makes of the child, or of null if there was
      none; so this says what becomes of what is missing, too. */
  lemma SetMakes(v: Value, ts: Pointer, k: nat, value: Value)
    requires ValidTokens(ts) && k < |ts| && Resolve(v, ts[..k]).Some?
    ensures Resolve(Set(v, ts, value), ts[..k]).Some?
    ensures var c, d := Resolve(v, ts[..k]).value, Resolve(Set(v, ts, value), ts[..k]).value;
            && (forall i, x :: Selects(c, ts[k], i) && Holds(c, i, x) ==>
                  Makes(c, ts[k], Set(x, ts[k + 1..], value), d))
            && ((forall i :: !Selects(c, ts[k], i)) ==> Makes(c, ts[k], Set(NullValue, ts[k + 1..], value), d))
  {
    SetBelow(v, ts, k, value);
    var c := Resolve(v, ts[..k]).value;
    assert ts[k..][0] == ts[k] && ts[k..][1..] == ts[k + 1..];
    PlacedMakes(c, ts[k], Set(ChildOrNull(c, ts[k]), ts[k + 1..], value));
    SelectsChild(c, ts[k]);
    forall i, x | Selects(c, ts[k], i) && Holds(c, i, x)
      ensures Child(c, ts[k]) == Some(x)
    {
      var j :| Selects(c, ts[k], j) && Holds(c, j, Child(c, ts[k]).value);
      SelectsOne(c, ts[k], i, j);
    }
  }

  lemma {:induction false} ErasedBelow(v: Value, ts: Pointer, k: nat)
    requires ValidTokens(ts) && k < |ts| && Resolve(v, ts).Some?
    ensures Resolve(v, ts[..k]).Some? && Erased(v, ts).Some?
    ensures Erased(Resolve(v, ts[..k]).value, ts[k..]).Some?
    ensures Resolve(Erased(v, ts).value, ts[..k]) == Erased(Resolve(v, ts[..k]).value, ts[k..])
    decreases k
  {
    ErasedIff(v, ts);
    if k > 0 {
      var t := ts[0];
      assert ValidTokens([t]);
      assert ts[..k][0] == t && ts[..k][1..] == ts[1..][..k - 1] && ts[1..][k - 1..] == ts[k..];
      ErasedBelow(Child(v, t).value, ts[1..], k - 1);
      PlacedChild(v, t, Erased(Child(v, t).value, ts[1..]).value);
    } else {
      assert ts[0..] == ts;
    }
  }

  /** After erasing what resolves: the container of the last token has lost the position that the token
      led to, and each container above has only its child on the way replaced. */
  lemma ErasedMakes(v: Value, ts: Pointer, k: nat, i: nat)
    requires ValidTokens(ts) && k < |ts| && Resolve(v, ts).Some?
    requires Resolve(v, ts[..k]).Some? ==> Selects(Resolve(v, ts[..k]).value, ts[k], i)
    ensures Erased(v, ts).Some? && Resolve(v, ts[..k]).Some? && Resolve(Erased(v, ts).value, ts[..k]).Some?
    ensures var c, d := Resolve(v, ts[..k]).value, Resolve(Erased(v, ts).value, ts[..k]).value;
            if k == |ts| - 1 then Drops(c, i, d)
            else exists x :: Replaces(c, i, x, d) && Resolve(Erased(v, ts).value, ts[..k + 1]) == Some(x)
  {
    ErasedBelow(v, ts, k);
    var c := Resolve(v, ts[..k]).value;
    assert ts[k..][0] == ts[k] && ts[k..][1..] == ts[k + 1..];
    assert ValidTokens([ts[k]]);
    if k == |ts| - 1 {
      WithoutDrops(c, ts[k], i);
    } else {
      var x := Erased(Child(c, ts[k]).value, ts[k + 1..]).value;
      PlacedReplaces(c, ts[k], i, x);
      PlacedChild(c, ts[k], x);
      assert ts[..k + 1] == ts[..k] + [ts[k]];
      ResolveSnoc(Erased(v, ts).value, ts[..k], ts[k]);
    }
  }

  /// ## What other pointers find after an erasure

  lemma PlacedElsewhere(v: Value, t: Token, u: Token, x: Value)
    requires ValidTokens([t]) && Consistent([t], [u]) && t.name != u.name && Child(v, t).Some?
    ensures Child(Placed(v, t, x), u) == Child(v, u)
  {
    assert [t][0] == t && [u][0] == u;
    if v.ObjectValue? {
      var i, j := FindMember(v.members, t.name), FindMember(v.members, u.name);
      var placed := v.members[i := Member(t.name, x)];
      forall k | 0 <= k < j
        ensures placed[k].name != u.name
      {
        if k != i { assert placed[k] == v.members[k]; }
      }
      FindMemberIs(placed, u.name, j);
    }
  }

  /** A pointer that parts from the erased one before its last token finds what it found, or nothing as
      before. */
  lemma {:induction false} EraseKeepsOthers(v: Value, ts: Pointer, us: Pointer, k: nat)
    requires ValidTokens(ts) && Consistent(ts, us) && Part(ts, us, k) && k < |ts| - 1 && Resolve(v, ts).Some?
    ensures Erased(v, ts).Some? && Resolve(Erased(v, ts).value, us) == Resolve(v, us)
    decreases |ts|
  {
    ErasedIff(v, ts);
    var t, u := ts[0], us[0];
    var child := Child(v, t).value;
    ErasedIff(child, ts[1..]);
    assert ValidTokens([t]);
    if k == 0 {
      assert Consistent([t], [u]);
      PlacedElsewhere(v, t, u, Erased(child, ts[1..]).value);
    } else {
      assert t == ts[..k][0] && u == us[..k][0];
      PartRest(ts, us, k);
      EraseKeepsOthers(child, ts[1..], us[1..], k - 1);
      PlacedChild(v, t, Erased(child, ts[1..]).value);
    }
  }

  /** What is found in a container through token `u`. */
  function Through(c: Value, u: Token, rest: Pointer): Option<Value> {
    match Child(c, u)
    case Some(x) => Resolve(x, rest)
    case None => None
  }

  lemma ResolveThrough(v: Value, front: Pointer, u: Token, rest: Pointer)
    requires Resolve(v, front).Some?
    ensures Resolve(v, front + ([u] + rest)) == Through(Resolve(v, front).value, u, rest)
  {
    ResolveJoins(v, front, [u] + rest);
    assert ([u] + rest)[1..] == rest;
  }

  lemma ErasedLast(v: Value, ts: Pointer)
    requires ValidTokens(ts) && ts != [] && Resolve(v, ts).Some?
    ensures var front, t := ts[..|ts| - 1], ts[|ts| - 1];
            && Erased(v, ts).Some? && Resolve(v, front).Some? && Child(Resolve(v, front).value, t).Some?
            && Resolve(Erased(v, ts).value, front) == Without(Resolve(v, front).value, t)
  {
    var front, t := ts[..|ts| - 1], ts[|ts| - 1];
    ErasedBelow(v, ts, |ts| - 1);
    assert ts[|ts| - 1..] == [t];
    LastChild(v, front, t, ts);
  }

  lemma LastChild(v: Value, front: Pointer, t: Token, ts: Pointer)
    requires ts == front + [t] && Resolve(v, ts).Some? && Resolve(v, front).Some?
    ensures Child(Resolve(v, front).value, t).Some?
  {
    ResolveSnoc(v, front, t);
  }

  /** In an array: a pointer through index `j` of the array finds what it found if `j` is below the erased
      index, and otherwise what the pointer through `j + 1` found. */
  lemma EraseMovesElements(v: Value, ts: Pointer, u: Token, w: Token, rest: Pointer)
    requires ValidTokens(ts) && ts != [] && Resolve(v, ts).Some?
    requires var c := Resolve(v, ts[..|ts| - 1]); c.Some? ==> c.value.ArrayValue?
    requires u.index < 0xFFFF_FFFF && w.index < 0xFFFF_FFFF
    requires w.index == if u.index < ts[|ts| - 1].index then u.index else u.index + 1
    ensures Erased(v, ts).Some?
    ensures var front := ts[..|ts| - 1];
            Resolve(Erased(v, ts).value, front + ([u] + rest)) == Resolve(v, front + ([w] + rest))
  {
    var n := |ts| - 1;
    ErasedLast(v, ts);
    ResolveThrough(v, ts[..n], w, rest);
    ResolveThrough(Erased(v, ts).value, ts[..n], u, rest);
    var c := Resolve(v, ts[..n]).value;
    assert Child(Without(c, ts[n]).value, u) == Child(c, w);
  }

  /** The first member of the name behind position `i`. */
  predicate NextOfName(members: seq<Member>, name: Text, i: nat, j: nat) {
    i < j < |members| && members[j].name == name && forall k :: i < k < j ==> members[k].name != name
  }

  lemma OtherMemberStays(members: seq<Member>, i: nat, name: Text)
    requires i < |members| && members[i].name != name
    ensures var rest := members[..i] + members[i + 1..];
            var f, g := FindMember(rest, name), FindMember(members, name);
            if g == |members| then f == |rest| else f < |rest| && rest[f] == members[g]
  {
    var rest := members[..i] + members[i + 1..];
    var g := FindMember(members, name);
    forall k | 0 <= k < if g < i then g else g - 1
      ensures rest[k].name != name
    {
      assert rest[k] == members[if k < i then k else k + 1];
    }
    FindMemberIs(rest, name, if g < i then g else g - 1);
  }

  lemma NextMemberIsFound(members: seq<Member>, i: nat, name: Text)
    requires Selects(ObjectValue(members), Token(name, 0), i)
    ensures var rest := members[..i] + members[i + 1..];
            var f := FindMember(rest, name);
            && (f < |rest| ==> NextOfName(members, name, i, f + 1) && rest[f] == members[f + 1])
            && forall j: nat :: NextOfName(members, name, i, j) ==> f == j - 1
  {
    var rest := members[..i] + members[i + 1..];
    var f := FindMember(rest, name);
    assert forall k :: 0 <= k < i ==> rest[k] == members[k];
    assert forall k :: i <= k < |rest| ==> rest[k] == members[k + 1];
    forall k | i < k < f + 1
      ensures members[k].name != name
    {
      assert rest[k - 1] == members[k];
    }
    forall j: nat | NextOfName(members, name, i, j)
      ensures f == j - 1
    {
      assert rest[j - 1] == members[j];
    }
  }

  lemma WithoutMember(members: seq<Member>, name: Text, i: nat, u: Token)
    requires Selects(ObjectValue(members), Token(name, 0), i)
    ensures var rest := ObjectValue(members[..i] + members[i + 1..]);
            && (u.name != name ==> Child(rest, u) == Child(ObjectValue(members), u))
            && (u.name == name ==>
                  && (forall j: nat :: NextOfName(members, name, i, j) ==> Child(rest, u) == Some(members[j].value))
                  && ((forall j: nat :: !NextOfName(members, name, i, j)) ==> Child(rest, u) == None))
  {
    if u.name != name {
      OtherMemberStays(members, i, u.name);
    } else {
      NextMemberIsFound(members, i, name);
    }
  }

  /** In an object: a pointer through another name finds what it found; one through the erased name finds
      the next member of that name, or nothing if there is none. */
  lemma EraseMovesMembers(v: Value, ts: Pointer, members: seq<Member>, i: nat, u: Token, rest: Pointer)
    requires ValidTokens(ts) && ts != [] && Resolve(v, ts).Some?
    requires Resolve(v, ts[..|ts| - 1]) == Some(ObjectValue(members))
    requires Selects(ObjectValue(members), ts[|ts| - 1], i)
    ensures Erased(v, ts).Some?
    ensures var name, after := ts[|ts| - 1].name, Resolve(Erased(v, ts).value, ts[..|ts| - 1] + ([u] + rest));
            && (u.name != name ==> after == Resolve(v, ts[..|ts| - 1] + ([u] + rest)))
            && (u.name == name ==>
                  && (forall j: nat :: NextOfName(members, name, i, j) ==> after == Resolve(members[j].value, rest))
                  && ((forall j: nat :: !NextOfName(members, name, i, j)) ==> after == None))
  {
    var n := |ts| - 1;
    ErasedLast(v, ts);
    ResolveThrough(v, ts[..n], u, rest);
    ResolveThrough(Erased(v, ts).value, ts[..n], u, rest);
    SelectsOne(ObjectValue(members), ts[n], i, FindMember(members, ts[n].name));
    WithoutMember(members, ts[n].name, i, u);
  }
}
