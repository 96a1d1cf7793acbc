/** JSON pointers that change a document in place: a cursor walks down the tree, and what is missing or
  of the wrong kind is created where the cursor stands. */
module PointerEdit {
  import opened JsonText
  import opened JsonDocument
  import opened PointerTree
  import opened Wrappers

  /** Where a value stands in a document: the position of each child on the way. */
  type Cursor = seq<nat>

  predicate HasChild(v: Value, i: nat) {
    (v.ObjectValue? && i < |v.members|) || (v.ArrayValue? && i < |v.elements|)
  }

  function ChildAt(v: Value, i: nat): Value
    requires HasChild(v, i)
  {
    if v.ObjectValue? then v.members[i].value else v.elements[i]
  }

  /** Assignment to the child at a position. */
  function ChildSet(v: Value, i: nat, child: Value): Value
    requires HasChild(v, i)
  {
    if v.ObjectValue? then ObjectValue(v.members[i := v.members[i].(value := child)])
    else ArrayValue(v.elements[i := child])
  }

  predicate Stands(root: Value, at: Cursor) {
    at == [] || (HasChild(root, at[0]) && Stands(ChildAt(root, at[0]), at[1..]))
  }

  function At(root: Value, at: Cursor): Value
    requires Stands(root, at)
  {
    if at == [] then root else At(ChildAt(root, at[0]), at[1..])
  }

  /** Assignment through the cursor. */
  function Written(root: Value, at: Cursor, v: Value): Value
    requires Stands(root, at)
    decreases |at|
  {
    if at == [] then v else ChildSet(root, at[0], Written(ChildAt(root, at[0]), at[1..], v))
  }

  lemma ChildSetSame(v: Value, i: nat, child: Value)
    requires HasChild(v, i)
    ensures HasChild(ChildSet(v, i, child), i) && ChildAt(ChildSet(v, i, child), i) == child
    ensures forall other :: ChildSet(ChildSet(v, i, child), i, other) == ChildSet(v, i, other)
  {
    forall other
      ensures ChildSet(ChildSet(v, i, child), i, other) == ChildSet(v, i, other)
    {
      if v.ObjectValue? {
        var one := v.members[i := v.members[i].(value := child)];
        assert one[i := one[i].(value := other)] == v.members[i := v.members[i].(value := other)];
      } else {
        assert v.elements[i := child][i := other] == v.elements[i := other];
      }
    }
  }

  /** What is written at a cursor stands there, and writing again replaces it. */
  lemma {:induction false} WrittenStands(root: Value, at: Cursor, v: Value, other: Value)
    requires Stands(root, at)
    ensures Stands(Written(root, at, v), at) && At(Written(root, at, v), at) == v
    ensures Written(Written(root, at, v), at, other) == Written(root, at, other)
    decreases |at|
  {
    if at != [] {
      var child := ChildAt(root, at[0]);
      WrittenStands(child, at[1..], v, other);
      ChildSetSame(root, at[0], Written(child, at[1..], v));
    }
  }

  /** Moving the cursor to a child. */
  lemma {:induction false} Deeper(root: Value, at: Cursor, i: nat, v: Value)
    requires Stands(root, at) && HasChild(At(root, at), i)
    ensures Stands(root, at + [i]) && At(root, at + [i]) == ChildAt(At(root, at), i)
    ensures Written(root, at + [i], v) == Written(root, at, ChildSet(At(root, at), i, v))
    decreases |at|
  {
    if at == [] {
      assert [i][1..] == [];
    } else {
      assert (at + [i])[1..] == at[1..] + [i];
      Deeper(ChildAt(root, at[0]), at[1..], i, v);
    }
  }

  /// ## One token

  /** The search for a member. */
  method Find(members: seq<Member>, name: Text) returns (i: nat)
    ensures i == FindMember(members, name)
  {
    i := 0;
    while i < |members| && members[i].name != name
      invariant i <= |members| && forall j :: 0 <= j < i ==> members[j].name != name
    {
      i := i + 1;
    }
    FindMemberIs(members, name, i);
  }

  /** Child `i` of `made` is the place that token `t` creates in `v`. */
  ghost predicate Places(v: Value, t: Token, made: Value, i: nat) {
    && HasChild(made, i) && ChildAt(made, i) == ChildOrNull(v, t)
    && forall child :: Placed(v, t, child) == ChildSet(made, i, child)
  }

  /** A dash on an array appends a null. */
  lemma AppendPlaces(v: Value, t: Token)
    requires v.ArrayValue? && IsDash(t) && ValidTokens([t])
    ensures Places(v, t, ArrayValue(v.elements + [NullValue]), |v.elements|)
  {
    assert [t][0] == t;
    var more, n := v.elements + [NullValue], |v.elements|;
    forall child
      ensures Placed(v, t, child) == ChildSet(ArrayValue(more), n, child)
    {
      assert v.elements + [child] == more[n := child];
    }
  }

  lemma ElementPlaces(v: Value, t: Token, elements: seq<Value>)
    requires Converted(v, t) == ArrayValue(elements) && !IsDash(t) && t.index != INVALID_INDEX
    ensures Places(v, t, ArrayValue(Padded(elements, t.index)), t.index)
  {
  }

  lemma MemberPlaces(v: Value, t: Token, members: seq<Member>)
    requires Converted(v, t) == ObjectValue(members)
    ensures var i := FindMember(members, t.name);
            Places(v, t, ObjectValue(if i < |members| then members else members + [Member(t.name, NullValue)]), i)
  {
    var i := FindMember(members, t.name);
    var more := if i < |members| then members else members + [Member(t.name, NullValue)];
    forall child
      ensures Placed(v, t, child) == ChildSet(ObjectValue(more), i, child)
    {
      if i < |members| {
        assert more[i := Member(t.name, child)] == members[i := members[i].(value := child)];
      } else {
        assert more[i := Member(t.name, child)] == members + [Member(t.name, child)];
      }
    }
  }

  /** One turn of `Create`: makes sure that the value under the cursor has the child of the token. */
  method Enter(v: Value, t: Token) returns (made: Value, i: nat, found: bool)
    requires ValidTokens([t])
    ensures Places(v, t, made, i) && (found <==> Child(v, t).Some?)
  {
    assert [t][0] == t;
    if v.ArrayValue? && IsDash(t) {
      AppendPlaces(v, t);
      return ArrayValue(v.elements + [NullValue]), |v.elements|, false;
    }
    made := v;
    if t.index == INVALID_INDEX {
      if !made.ObjectValue? {
        made := ObjectValue([]);
      }
    } else if !made.ArrayValue? && !made.ObjectValue? {
      made := ArrayValue([]);
    }
    assert made == Converted(v, t);
    if made.ArrayValue? {
      ElementPlaces(v, t, made.elements);
      found := t.index < |made.elements|;
      made := Pad(made.elements, t.index);
      i := t.index;
    } else {
      MemberPlaces(v, t, made.members);
      i := Find(made.members, t.name);
      found := i < |made.members|;
      if !found {
        made := ObjectValue(made.members + [Member(t.name, NullValue)]);
      }
    }
  }

  /** Appends nulls until the index exists. */
  method Pad(elements: seq<Value>, index: nat) returns (made: Value)
    ensures made == ArrayValue(Padded(elements, index))
  {
    var more := elements;
    while index >= |more|
      invariant |elements| <= |more| && (|more| <= index + 1 || more == elements)
      invariant more == elements + seq(|more| - |elements|, i => NullValue)
      decreases index + 1 - |more|
    {
      more := more + [NullValue];
    }
    made := ArrayValue(more);
  }

  /// ## Erasing

  /** The position of the child that a token selects. */
  method Step(v: Value, t: Token) returns (i: Option<nat>)
    requires ValidTokens([t])
    ensures i.None? <==> Child(v, t).None?
    ensures i.Some? ==> Places(v, t, v, i.value)
  {
    assert [t][0] == t;
    match v
    case ObjectValue(members) =>
      var m := Find(members, t.name);
      if m == |members| {
        return None;
      }
      MemberPlaces(v, t, members);
      i := Some(m);
    case ArrayValue(elements) =>
      if t.index == INVALID_INDEX || t.index >= |elements| {
        return None;
      }
      ElementPlaces(v, t, elements);
      i := Some(t.index);
    case _ =>
      i := None;
  }

  /** Removes the child that a token selects. */
  method Remove(v: Value, t: Token) returns (rest: Option<Value>)
    ensures rest == Without(v, t)
  {
    match v
    case ObjectValue(members) =>
      var m := Find(members, t.name);
      rest := if m == |members| then None else Some(ObjectValue(members[..m] + members[m + 1..]));
    case ArrayValue(elements) =>
      if t.index == INVALID_INDEX || t.index >= |elements| {
        return None;
      }
      rest := Some(ArrayValue(elements[..t.index] + elements[t.index + 1..]));
    case _ =>
      rest := None;
  }

  function WrittenIf(root: Value, at: Cursor, v: Option<Value>): Option<Value>
    requires Stands(root, at)
  {
    if v.None? then None else Some(Written(root, at, v.value))
  }

  lemma ErasedDeeper(root: Value, at: Cursor, ts: Pointer, k: nat, i: nat)
    requires Stands(root, at) && k + 1 < |ts| && Child(At(root, at), ts[k]).Some?
    requires Places(At(root, at), ts[k], At(root, at), i)
    ensures Stands(root, at + [i])
    ensures WrittenIf(root, at, Erased(At(root, at), ts[k..]))
         == WrittenIf(root, at + [i], Erased(At(root, at + [i]), ts[k + 1..]))
  {
    var v := At(root, at);
    Deeper(root, at, i, v);
    assert ts[k..][0] == ts[k] && ts[k..][1..] == ts[k + 1..];
    var child := Erased(ChildAt(v, i), ts[k + 1..]);
    if child.Some? {
      Deeper(root, at, i, child.value);
      assert Placed(v, ts[k], child.value) == ChildSet(v, i, child.value);
    }
  }

  /// ## Documents changed in place

  class Tree {
    var root: Value

    constructor (v: Value)
      ensures root == v
    {
      root := v;
    }

    /** Creates what the pointer lacks and returns where it leads. */
    method Create(ts: Pointer) returns (at: Cursor, exist: bool)
      requires ValidTokens(ts)
      modifies this
      ensures Stands(root, at) && (exist <==> Resolve(old(root), ts).Some?)
      ensures forall value :: Set(old(root), ts, value) == Written(root, at, value)
      ensures At(root, at) == if exist then Resolve(old(root), ts).value else NullValue
    {
      at, exist := [], true;
      assert ts[0..] == ts;
      for k := 0 to |ts|
        invariant Stands(root, at)
        invariant forall value :: Set(old(root), ts, value) == Written(root, at, Set(At(root, at), ts[k..], value))
        invariant Exists(old(root), ts) <==> exist && Exists(At(root, at), ts[k..])
        invariant exist ==> Resolve(old(root), ts) == Resolve(At(root, at), ts[k..])
        invariant !exist ==> At(root, at) == NullValue
      {
        ghost var before, v := root, At(root, at);
        assert ValidTokens([ts[k]]);
        assert ts[k..][0] == ts[k] && ts[k..][1..] == ts[k + 1..];
        var made, i, found := Enter(At(root, at), ts[k]);
        root := Written(root, at, made);
        Entered(before, at, ts, k, made, i);
        at := at + [i];
        exist := exist && found;
      }
      ExistsIffResolves(old(root), ts);
    }

    /** Removes what the pointer leads to; the rest of the array or the members moves up. */
    method Erase(ts: Pointer) returns (erased: bool)
      requires ValidTokens(ts)
      modifies this
      ensures erased <==> Erased(old(root), ts).Some?
      ensures root == if erased then Erased(old(root), ts).value else old(root)
    {
      if |ts| == 0 {
        return false;
      }
      var at: Cursor := [];
      assert ts[0..] == ts;
      for k := 0 to |ts| - 1
        invariant Stands(root, at) && root == old(root)
        invariant Erased(root, ts) == WrittenIf(root, at, Erased(At(root, at), ts[k..]))
      {
        assert ValidTokens([ts[k]]);
        var i := Step(At(root, at), ts[k]);
        assert ts[k..][0] == ts[k] && ts[k..][1..] == ts[k + 1..];
        if i.None? {
          return false;
        }
        ErasedDeeper(root, at, ts, k, i.value);
        at := at + [i.value];
      }
      var rest := Remove(At(root, at), ts[|ts| - 1]);
      if rest.None? {
        return false;
      }
      root := Written(root, at, rest.value);
      erased := true;
    }

    /** Puts a value where the pointer leads, creating the way. */
    method SetValue(ts: Pointer, value: Value) returns (existed: bool)
      requires ValidTokens(ts)
      modifies this
      ensures root == Set(old(root), ts, value) && (existed <==> Resolve(old(root), ts).Some?)
    {
      var at, exist := Create(ts);
      root := Written(root, at, value);
      existed := exist;
    }
  }

  /** After one turn the rest of the pointer applies to the child. */
  lemma Entered(root: Value, at: Cursor, ts: Pointer, k: nat, made: Value, i: nat)
    requires Stands(root, at) && k < |ts| && Places(At(root, at), ts[k], made, i)
    ensures var after := Written(root, at, made);
            && Stands(after, at + [i]) && At(after, at + [i]) == ChildOrNull(At(root, at), ts[k])
            && forall value :: Written(root, at, Set(At(root, at), ts[k..], value))
                            == Written(after, at + [i], Set(At(after, at + [i]), ts[k + 1..], value))
  {
    var after, v := Written(root, at, made), At(root, at);
    WrittenStands(root, at, made, made);
    Deeper(after, at, i, made);
    assert ts[k..][0] == ts[k] && ts[k..][1..] == ts[k + 1..];
    forall value
      ensures Written(root, at, Set(v, ts[k..], value))
              == Written(after, at + [i], Set(At(after, at + [i]), ts[k + 1..], value))
    {
      var rest := Set(ChildOrNull(v, ts[k]), ts[k + 1..], value);
      Deeper(after, at, i, rest);
      WrittenStands(root, at, made, ChildSet(made, i, rest));
      assert Placed(v, ts[k], rest) == ChildSet(made, i, rest);
    }
  }
}
