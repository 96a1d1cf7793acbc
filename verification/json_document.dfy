/** Documents: trees of values, the events they generate, the text the writer prints for them, and the
  stack on which the handlers of a document build them. */
module JsonDocument {
  import opened JsonText
  import opened JsonNumbers
  import opened JsonStrings
  import opened JsonReader
  import I = Itoa
  import opened Wrappers

  /** A double is only known by its literal. */
  datatype Num = Integer(i: int) | Real(literal: Text)

  datatype Value =
    | NullValue
    | BoolValue(b: bool)
    | NumberValue(n: Num)
    | StringValue(s: Text)
    | ObjectValue(members: seq<Member>)
    | ArrayValue(elements: seq<Value>)

  datatype Member = Member(name: Text, value: Value)

  predicate IsInt64OrUint64(i: int) {
    -0x8000_0000_0000_0000 <= i <= MAX_UINT64
  }

  /** Integers are in range, and there are no doubles. */
  predicate DoubleFree(v: Value) {
    match v
    case NumberValue(n) => n.Integer? && IsInt64OrUint64(n.i)
    case ObjectValue(members) => forall m :: m in members ==> DoubleFree(m.value)
    case ArrayValue(elements) => forall e :: e in elements ==> DoubleFree(e)
    case _ => true
  }

  /// ## Events

  /** The event for an integer, in the order in which `Accept` asks for its type. */
  function AcceptNumber(i: int): Number {
    if -0x8000_0000 <= i < 0x8000_0000 then Int(i)
    else if 0 <= i <= MAX_UINT then Uint(i)
    else if i < 0x8000_0000_0000_0000 then Int64(i)
    else Uint64(i)
  }

  /** An integer is accepted with the first of int, unsigned, int64 and uint64 that holds it. */
  lemma AcceptedAs(i: int)
    requires IsInt64OrUint64(i)
    ensures match AcceptNumber(i)
            case Int(v) => v == i && -2147483648 <= i <= 2147483647
            case Uint(v) => v == i && 2147483648 <= i <= 4294967295
            case Int64(v) =>
              v == i && -9223372036854775808 <= i <= 9223372036854775807 && !(-2147483648 <= i <= 4294967295)
            case Uint64(v) => v == i && 9223372036854775808 <= i <= 18446744073709551615
            case Double(_) => false
  {
  }

  /** The event for an integer that is read from its decimal. */
  function ReadBack(i: int): Number {
    if i < -0x8000_0000 then Int64(i)
    else if i < 0 then Int(i)
    else if i <= MAX_UINT then Uint(i)
    else Uint64(i)
  }

  /** What `Accept` gives to a handler, for a choice of the events for integers. */
  function Events(v: Value, number: int -> Number): (events: seq<Event>)
    ensures events != []
    decreases v
  {
    match v
    case NullValue => [Null]
    case BoolValue(b) => [Bool(b)]
    case NumberValue(Integer(i)) => [Numeric(number(i))]
    case NumberValue(Real(literal)) => [Numeric(Double(literal))]
    case StringValue(s) => [String(s)]
    case ObjectValue(members) => [StartObject] + MemberEvents(members, number) + [EndObject(|members|)]
    case ArrayValue(elements) => [StartArray] + ElementEvents(elements, number) + [EndArray(|elements|)]
  }

  function MemberEvents(members: seq<Member>, number: int -> Number): seq<Event>
    decreases members
  {
    if members == [] then []
    else [Key(members[0].name)] + Events(members[0].value, number) + MemberEvents(members[1..], number)
  }

  function ElementEvents(elements: seq<Value>, number: int -> Number): seq<Event>
    decreases elements
  {
    if elements == [] then [] else Events(elements[0], number) + ElementEvents(elements[1..], number)
  }

  /// ## The handlers of a document

  /** Names and values alternate on the stack. */
  function Members(values: seq<Value>): Option<seq<Member>> {
    if values == [] then Some([])
    else if |values| == 1 || !values[0].StringValue? then None
    else
      match Members(values[2..])
      case None => None
      case Some(members) => Some([Member(values[0].s, values[1])] + members)
  }

  function NumValue(n: Number): Num {
    match n
    case Int(i) => Integer(i)
    case Uint(i) => Integer(i)
    case Int64(i) => Integer(i)
    case Uint64(i) => Integer(i)
    case Double(literal) => Real(literal)
  }

  /** The stack after an event; `None` if the event does not fit what is on it. */
  function Handle(stack: seq<Value>, event: Event): Option<seq<Value>> {
    match event
    case Null => Some(stack + [NullValue])
    case Bool(b) => Some(stack + [BoolValue(b)])
    case Numeric(n) => Some(stack + [NumberValue(NumValue(n))])
    case String(s) => Some(stack + [StringValue(s)])
    case Key(s) => Some(stack + [StringValue(s)])
    case StartObject => Some(stack + [ObjectValue([])])
    case StartArray => Some(stack + [ArrayValue([])])
    case EndObject(count) =>
      var at := |stack| - 2 * count - 1;
      if at < 0 || !stack[at].ObjectValue? || Members(stack[at + 1..]).None? then None
      else Some(stack[..at] + [ObjectValue(Members(stack[at + 1..]).value)])
    case EndArray(count) =>
      var at := |stack| - count - 1;
      if at < 0 || !stack[at].ArrayValue? then None
      else Some(stack[..at] + [ArrayValue(stack[at + 1..])])
  }

  function HandleAll(stack: seq<Value>, events: seq<Event>): Option<seq<Value>>
    decreases |events|
  {
    if events == [] then Some(stack)
    else
      match Handle(stack, events[0])
      case None => None
      case Some(stack') => HandleAll(stack', events[1..])
  }

  lemma {:induction false} HandleAllAppend(stack: seq<Value>, a: seq<Event>, b: seq<Event>)
    requires HandleAll(stack, a).Some?
    ensures HandleAll(stack, a + b) == HandleAll(HandleAll(stack, a).value, b)
    decreases |a|
  {
    if a == [] {
      assert a + b == b;
    } else {
      assert (a + b)[1..] == a[1..] + b;
      HandleAllAppend(Handle(stack, a[0]).value, a[1..], b);
    }
  }

  lemma HandleOne(stack: seq<Value>, event: Event)
    ensures HandleAll(stack, [event]) == Handle(stack, event)
  {
  }

  /** Names and values as they lie on the stack. */
  function Flat(members: seq<Member>): (values: seq<Value>)
    ensures |values| == 2 * |members|
  {
    if members == [] then [] else [StringValue(members[0].name), members[0].value] + Flat(members[1..])
  }

  lemma {:induction false} MembersOfFlat(members: seq<Member>)
    ensures Members(Flat(members)) == Some(members)
  {
    if members != [] {
      assert Flat(members)[2..] == Flat(members[1..]);
      MembersOfFlat(members[1..]);
      assert [members[0]] + members[1..] == members;
    }
  }

  ghost predicate KeepsIntegers(number: int -> Number) {
    forall i :: NumValue(number(i)) == Integer(i)
  }

  /** The events of a value push this value, and leave the stack beneath it as it is. */
  lemma {:induction false} EventsBuild(stack: seq<Value>, v: Value, number: int -> Number)
    requires KeepsIntegers(number)
    ensures HandleAll(stack, Events(v, number)) == Some(stack + [v])
    decreases v, 0
  {
    match v
    case ObjectValue(members) => ObjectEventsBuild(stack, v, number);
    case ArrayValue(elements) => ArrayEventsBuild(stack, v, number);
    case _ => HandleOne(stack, Events(v, number)[0]);
  }

  lemma {:induction false} ObjectEventsBuild(stack: seq<Value>, v: Value, number: int -> Number)
    requires v.ObjectValue? && KeepsIntegers(number)
    ensures HandleAll(stack, Events(v, number)) == Some(stack + [v])
    decreases v.members, 1
  {
    var started := stack + [ObjectValue([])];
    HandleOne(stack, StartObject);
    MemberEventsBuild(started, v.members, number);
    var filled := started + Flat(v.members);
    HandleAllAppend(stack, [StartObject], MemberEvents(v.members, number));
    HandleAllAppend(stack, [StartObject] + MemberEvents(v.members, number), [EndObject(|v.members|)]);
    HandleOne(filled, EndObject(|v.members|));
    assert filled[|stack| + 1..] == Flat(v.members) && filled[..|stack|] == stack;
    MembersOfFlat(v.members);
  }

  lemma {:induction false} MemberEventsBuild(stack: seq<Value>, members: seq<Member>, number: int -> Number)
    requires KeepsIntegers(number)
    ensures HandleAll(stack, MemberEvents(members, number)) == Some(stack + Flat(members))
    decreases members, 0
  {
    if members == [] {
      assert stack + Flat(members) == stack;
    } else {
      var m := members[0];
      var named := stack + [StringValue(m.name)];
      HandleOne(stack, Key(m.name));
      EventsBuild(named, m.value, number);
      HandleAllAppend(stack, [Key(m.name)], Events(m.value, number));
      MemberEventsBuild(named + [m.value], members[1..], number);
      HandleAllAppend(stack, [Key(m.name)] + Events(m.value, number), MemberEvents(members[1..], number));
      assert named + [m.value] + Flat(members[1..]) == stack + Flat(members);
    }
  }

  lemma {:induction false} ArrayEventsBuild(stack: seq<Value>, v: Value, number: int -> Number)
    requires v.ArrayValue? && KeepsIntegers(number)
    ensures HandleAll(stack, Events(v, number)) == Some(stack + [v])
    decreases v.elements, 1
  {
    var started := stack + [ArrayValue([])];
    HandleOne(stack, StartArray);
    ElementEventsBuild(started, v.elements, number);
    var filled := started + v.elements;
    HandleAllAppend(stack, [StartArray], ElementEvents(v.elements, number));
    HandleAllAppend(stack, [StartArray] + ElementEvents(v.elements, number), [EndArray(|v.elements|)]);
    HandleOne(filled, EndArray(|v.elements|));
    assert filled[|stack| + 1..] == v.elements && filled[..|stack|] == stack;
  }

  lemma {:induction false} ElementEventsBuild(stack: seq<Value>, elements: seq<Value>, number: int -> Number)
    requires KeepsIntegers(number)
    ensures HandleAll(stack, ElementEvents(elements, number)) == Some(stack + elements)
    decreases elements, 0
  {
    if elements == [] {
      assert stack + elements == stack;
    } else {
      EventsBuild(stack, elements[0], number);
      ElementEventsBuild(stack + [elements[0]], elements[1..], number);
      HandleAllAppend(stack, Events(elements[0], number), ElementEvents(elements[1..], number));
      assert stack + [elements[0]] + elements[1..] == stack + elements;
    }
  }

  /// ## The printed text

  function Append(a: Option<Text>, b: Option<Text>): Option<Text> {
    if a.Some? && b.Some? then Some(a.value + b.value) else None
  }

  function Word(word: string): Text
    requires forall i :: 0 <= i < |word| ==> word[i] < 256 as char
  {
    seq(|word|, i requires 0 <= i < |word| => word[i] as int)
  }

  /** The JSON text of a value; `None` if a string in it cannot be written. */
  function Printed(ascii: bool, v: Value): Option<Text>
    requires DoubleFree(v)
    decreases v
  {
    match v
    case NullValue => Some(Word("null"))
    case BoolValue(b) => Some(if b then Word("true") else Word("false"))
    case NumberValue(n) => Some(I.SignedDecimal(n.i))
    case StringValue(s) => Quoted(ascii, s)
    case ObjectValue(members) =>
      Append(Some(['{' as int]), Append(PrintedMembers(ascii, members), Some(['}' as int])))
    case ArrayValue(elements) =>
      Append(Some(['[' as int]), Append(PrintedElements(ascii, elements), Some([']' as int])))
  }

  function PrintedMembers(ascii: bool, members: seq<Member>): Option<Text>
    requires forall m :: m in members ==> DoubleFree(m.value)
    decreases members
  {
    if members == [] then Some([])
    else
      Append(PrintedMember(ascii, members[0]),
             if |members| == 1 then Some([])
             else Append(Some([',' as int]), PrintedMembers(ascii, members[1..])))
  }

  function PrintedMember(ascii: bool, m: Member): Option<Text>
    requires DoubleFree(m.value)
    decreases m
  {
    Append(Quoted(ascii, m.name), Append(Some([':' as int]), Printed(ascii, m.value)))
  }

  function PrintedElements(ascii: bool, elements: seq<Value>): Option<Text>
    requires forall e :: e in elements ==> DoubleFree(e)
    decreases elements
  {
    if elements == [] then Some([])
    else
      Append(Printed(ascii, elements[0]),
             if |elements| == 1 then Some([])
             else Append(Some([',' as int]), PrintedElements(ascii, elements[1..])))
  }
}
