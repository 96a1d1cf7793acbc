/** JSON pointers applied to documents: resolving, creating, setting and erasing. */
module PointerTree {
  import opened JsonText
  import opened JsonDocument
  import opened Wrappers

  /** The index of a token that is not an array index. */
  const INVALID_INDEX: nat := 0xFFFF_FFFF

  datatype Token = Token(name: Text, index: nat)

  type Pointer = seq<Token>

  predicate IsDash(t: Token) {
    t.name == ['-' as int]
  }

  /** Tokens are the same when their names are: the index is a function of the name. */
  predicate Consistent(ts: Pointer, us: Pointer) {
    forall i, j :: 0 <= i < |ts| && 0 <= j < |us| ==>
      (ts[i].name == us[j].name ==> ts[i].index == us[j].index)
      && (ts[i].index == us[j].index < INVALID_INDEX ==> ts[i].name == us[j].name)
  }

  /** The first member with a name. */
  function FindMember(members: seq<Member>, name: Text): (i: nat)
    ensures i <= |members|
    ensures i < |members| ==> members[i].name == name
    ensures forall j :: 0 <= j < i ==> members[j].name != name
  {
    if members == [] || members[0].name == name then 0
    else
      var i := 1 + FindMember(members[1..], name);
      assert forall j :: 1 <= j < i ==> members[j] == members[1..][j - 1];
      assert i < |members| ==> members[i] == members[1..][i - 1];
      i
  }

  /** The child that a token selects. */
  function Child(v: Value, t: Token): Option<Value> {
    match v
    case ObjectValue(members) =>
      var i := FindMember(members, t.name);
      if i < |members| then Some(members[i].value) else None
    case ArrayValue(elements) =>
      if t.index == INVALID_INDEX || t.index >= |elements| then None else Some(elements[t.index])
    case _ => None
  }

  /** `Get`. */
  function Resolve(v: Value, ts: Pointer): Option<Value> {
    if ts == [] then Some(v)
    else
      match Child(v, ts[0])
      case None => None
      case Some(child) => Resolve(child, ts[1..])
  }

  method Get(root: Value, ts: Pointer) returns (v: Option<Value>, unresolved: nat)
    ensures v == Resolve(root, ts)
    ensures v.None? ==> unresolved < |ts| && Resolve(root, ts[..unresolved]).Some?
                        && Child(Resolve(root, ts[..unresolved]).value, ts[unresolved]).None?
  {
    var at := root;
    unresolved := 0;
    assert ts[0..] == ts && ts[..0] == [];
    for k := 0 to |ts|
      invariant Resolve(at, ts[k..]) == Resolve(root, ts)
      invariant Resolve(root, ts[..k]) == Some(at)
    {
      var child := Child(at, ts[k]);
      assert ts[k..][1..] == ts[k + 1..];
      ResolveSnoc(root, ts[..k], ts[k]);
      assert ts[..k + 1] == ts[..k] + [ts[k]];
      if child.None? { return None, k; }
      at := child.value;
    }
    v := Some(at);
  }

  lemma {:induction false} ResolveSnoc(v: Value, ts: Pointer, t: Token)
    requires Resolve(v, ts).Some?
    ensures Resolve(v, ts + [t]) == Child(Resolve(v, ts).value, t)
    decreases |ts|
  {
    if ts == [] {
      assert [t][1..] == [];
    } else {
      assert (ts + [t])[1..] == ts[1..] + [t];
      ResolveSnoc(Child(v, ts[0]).value, ts[1..], t);
    }
  }

  /// ## Creating

  /** The container that a token needs: another value than an object or an array is replaced. */
  function Converted(v: Value, t: Token): Value {
    if v.ArrayValue? && IsDash(t) then v
    else if t.index == INVALID_INDEX then if v.ObjectValue? then v else ObjectValue([])
    else if v.ArrayValue? || v.ObjectValue? then v
    else ArrayValue([])
  }

  /** An array padded with nulls so that an index exists. */
  function Padded(elements: seq<Value>, index: nat): (padded: seq<Value>)
    ensures |padded| > index && |padded| >= |elements|
    ensures forall i :: 0 <= i < |elements| ==> padded[i] == elements[i]
  {
    if index < |elements| then elements else elements + seq(index + 1 - |elements|, i => NullValue)
  }

  /** `Create` at a token, with a new value for the child: the position of the child in the container
      is found, or made. */
  function Placed(v: Value, t: Token, child: Value): Value {
    match Converted(v, t)
    case ArrayValue(elements) =>
      if IsDash(t) then ArrayValue(elements + [child])
      else if t.index == INVALID_INDEX then v
      else ArrayValue(Padded(elements, t.index)[t.index := child])
    case ObjectValue(members) =>
      var i := FindMember(members, t.name);
      ObjectValue(if i < |members| then members[i := Member(t.name, child)] else members + [Member(t.name, child)])
    case other => other
  }

  /** The child that `Create` goes on from: the present one, or a new null. */
  function ChildOrNull(v: Value, t: Token): Value {
    match Child(v, t)
    case Some(child) => child
    case None => NullValue
  }

  /** `Set`: creates what is missing on the way, and puts the value there. */
  function Set(v: Value, ts: Pointer, value: Value): Value
    decreases |ts|
  {
    if ts == [] then value
    else Placed(v, ts[0], Set(ChildOrNull(v, ts[0]), ts[1..], value))
  }

  /** What `Create` reports in `alreadyExist`. */
  predicate Exists(v: Value, ts: Pointer)
    decreases |ts|
  {
    if ts == [] then true
    else Child(v, ts[0]).Some? && Exists(ChildOrNull(v, ts[0]), ts[1..])
  }

  /// ## Laws of setting and getting

  /** A dash is never an index. */
  predicate ValidTokens(ts: Pointer) {
    forall i :: 0 <= i < |ts| ==> ts[i].index <= INVALID_INDEX && (IsDash(ts[i]) ==> ts[i].index == INVALID_INDEX)
  }

  /** On the way, a dash appends to an array. */
  predicate Appends(v: Value, ts: Pointer)
    decreases |ts|
  {
    ts != [] && ((v.ArrayValue? && IsDash(ts[0])) || Appends(ChildOrNull(v, ts[0]), ts[1..]))
  }

  lemma PlacedChild(v: Value, t: Token, child: Value)
    requires ValidTokens([t])
    ensures Child(Placed(v, t, child), t) == if v.ArrayValue? && IsDash(t) then None else Some(child)
  {
    assert [t][0] == t;
    if Converted(v, t).ObjectValue? {
      MemberPlaced(Converted(v, t).members, t.name, child);
    }
  }

  lemma MemberPlaced(members: seq<Member>, name: Text, child: Value)
    ensures var i := FindMember(members, name);
            var placed := if i < |members| then members[i := Member(name, child)] else members + [Member(name, child)];
            FindMember(placed, name) == i && placed[i].value == child
  {
    var i := FindMember(members, name);
    var placed := if i < |members| then members[i := Member(name, child)] else members + [Member(name, child)];
    forall j | 0 <= j < i ensures placed[j].name != name { assert placed[j] == members[j]; }
    FindMemberIs(placed, name, i);
  }

  lemma FindMemberIs(members: seq<Member>, name: Text, i: nat)
    requires i <= |members| && (i < |members| ==> members[i].name == name)
    requires forall j :: 0 <= j < i ==> members[j].name != name
    ensures FindMember(members, name) == i
  {
  }

  /** What has been set is found, unless it was appended: then the dash does not lead to it. */
  lemma {:induction false} SetThenGetIff(v: Value, ts: Pointer, value: Value)
    requires ValidTokens(ts)
    ensures Resolve(Set(v, ts, value), ts) == Some(value) <==> !Appends(v, ts)
    ensures Appends(v, ts) ==> Resolve(Set(v, ts, value), ts) == None
    decreases |ts|
  {
    if ts != [] {
      assert ValidTokens([ts[0]]);
      PlacedChild(v, ts[0], Set(ChildOrNull(v, ts[0]), ts[1..], value));
      SetThenGetIff(ChildOrNull(v, ts[0]), ts[1..], value);
    }
  }

  /** The reported existence is that of the value before. */
  lemma {:induction false} ExistsIffResolves(v: Value, ts: Pointer)
    ensures Exists(v, ts) <==> Resolve(v, ts).Some?
    decreases |ts|
  {
    if ts != [] {
      ExistsIffResolves(ChildOrNull(v, ts[0]), ts[1..]);
    }
  }

  /** An array that meets a token which is neither an index nor a dash: it is replaced by an object. */
  predicate Replaced(v: Value, t: Token) {
    v.ArrayValue? && t.index == INVALID_INDEX && !IsDash(t)
  }

  /** The pointers part at position `k`. */
  predicate Part(ts: Pointer, us: Pointer, k: nat) {
    k < |ts| && k < |us| && ts[..k] == us[..k] && ts[k].name != us[k].name
  }

  lemma PlacedOther(v: Value, t: Token, u: Token, child: Value)
    requires ValidTokens([t]) && Consistent([t], [u]) && t.name != u.name
    requires Child(v, u).Some?
    ensures Child(Placed(v, t, child), u) == if Replaced(v, t) then None else Child(v, u)
  {
    assert [t][0] == t && [u][0] == u;
    if v.ObjectValue? {
      var members, i, j := v.members, FindMember(v.members, t.name), FindMember(v.members, u.name);
      var placed := if i < |members| then members[i := Member(t.name, child)] else members + [Member(t.name, child)];
      forall k | 0 <= k < j ensures placed[k].name != u.name {
        if k != i { assert placed[k] == members[k]; }
      }
      FindMemberIs(placed, u.name, j);
    }
  }

  /** A value whose pointer parts from the one that is set keeps its place and its value, if and only if
      the container in which they part is not replaced; then nothing is found in its place. */
  lemma {:induction false} SetKeepsOthersIff(v: Value, ts: Pointer, us: Pointer, k: nat, value: Value)
    requires ValidTokens(ts) && Consistent(ts, us) && Part(ts, us, k) && Resolve(v, us).Some?
    ensures Resolve(v, ts[..k]).Some?
    ensures Resolve(Set(v, ts, value), us)
         == if Replaced(Resolve(v, ts[..k]).value, ts[k]) then None else Resolve(v, us)
    decreases |ts|
  {
    var t, u := ts[0], us[0];
    var child := ChildOrNull(v, t);
    var placed := Set(child, ts[1..], value);
    assert ValidTokens([t]);
    if k == 0 {
      assert Consistent([t], [u]) && ts[..0] == [];
      PlacedOther(v, t, u, placed);
    } else {
      assert t == ts[..k][0] && u == us[..k][0] && ts[..k][1..] == ts[1..][..k - 1];
      PlacedChild(v, t, placed);
      PartRest(ts, us, k);
      SetKeepsOthersIff(child, ts[1..], us[1..], k - 1, value);
    }
  }

  lemma PartRest(ts: Pointer, us: Pointer, k: nat)
    requires Consistent(ts, us) && Part(ts, us, k) && k > 0
    ensures Consistent(ts[1..], us[1..]) && Part(ts[1..], us[1..], k - 1)
  {
    assert ts[1..][..k - 1] == ts[..k][1..] && us[1..][..k - 1] == us[..k][1..];
    forall i, j | 0 <= i < |ts[1..]| && 0 <= j < |us[1..]|
      ensures (ts[1..][i].name == us[1..][j].name ==> ts[1..][i].index == us[1..][j].index)
      ensures (ts[1..][i].index == us[1..][j].index < INVALID_INDEX ==> ts[1..][i].name == us[1..][j].name)
    {
      assert ts[1..][i] == ts[i + 1] && us[1..][j] == us[j + 1];
    }
  }

  /// ## Erasing

  /** The container without the child that a token selects. */
  function Without(v: Value, t: Token): Option<Value> {
    match v
    case ObjectValue(members) =>
      var i := FindMember(members, t.name);
      if i < |members| then Some(ObjectValue(members[..i] + members[i + 1..])) else None
    case ArrayValue(elements) =>
      if t.index == INVALID_INDEX || t.index >= |elements| then None
      else Some(ArrayValue(elements[..t.index] + elements[t.index + 1..]))
    case _ => None
  }

  /** `Erase`; `None` stands for the result `false`. */
  function Erased(v: Value, ts: Pointer): Option<Value>
    decreases |ts|
  {
    if ts == [] then None
    else if |ts| == 1 then Without(v, ts[0])
    else
      match Child(v, ts[0])
      case None => None
      case Some(child) =>
        match Erased(child, ts[1..])
        case None => None
        case Some(child') => Some(Placed(v, ts[0], child'))
  }

  /** Everything that resolves can be erased, except the root. */
  lemma {:induction false} ErasedIff(v: Value, ts: Pointer)
    ensures Erased(v, ts).Some? <==> ts != [] && Resolve(v, ts).Some?
    decreases |ts|
  {
    if |ts| > 1 {
      if Child(v, ts[0]).Some? {
        ErasedIff(Child(v, ts[0]).value, ts[1..]);
      }
    } else if |ts| == 1 {
      assert ts[1..] == [];
    }
  }

  lemma PlacedBack(v: Value, t: Token, child: Value, other: Value)
    requires ValidTokens([t]) && Child(v, t) == Some(child)
    ensures Placed(Placed(v, t, other), t, child) == v
  {
    assert [t][0] == t;
    if v.ObjectValue? {
      var i := FindMember(v.members, t.name);
      MemberPlaced(v.members, t.name, other);
      assert v.members[i := Member(t.name, other)][i := Member(t.name, child)] == v.members;
    } else {
      assert v.elements[t.index := other][t.index := child] == v.elements;
    }
  }

  /** Erasing undoes the setting of a new member. */
  lemma {:induction false} EraseUndoesSet(v: Value, ts: Pointer, value: Value)
    requires ValidTokens(ts) && ts != []
    requires Resolve(v, ts[..|ts| - 1]).Some? && Resolve(v, ts[..|ts| - 1]).value.ObjectValue?
    requires Resolve(v, ts).None?
    ensures Erased(Set(v, ts, value), ts) == Some(v)
    decreases |ts|
  {
    var t := ts[0];
    assert ValidTokens([t]);
    if |ts| == 1 {
      assert ts[1..] == [] && ts[..0] == [];
      var members, n := v.members, |v.members|;
      assert FindMember(members, t.name) == n;
      MemberPlaced(members, t.name, value);
      var more := members + [Member(t.name, value)];
      assert more[..n] + more[n + 1..] == members;
    } else {
      assert ts[..|ts| - 1][0] == t && ts[..|ts| - 1][1..] == ts[1..][..|ts| - 2];
      var child := Child(v, t).value;
      var changed := Set(child, ts[1..], value);
      EraseUndoesSet(child, ts[1..], value);
      PlacedChild(v, t, changed);
      PlacedBack(v, t, child, changed);
    }
  }
}
