/** The writer, which is given events and puts every comma and colon itself. */
module JsonWriter {
  import opened JsonText
  import opened JsonNumbers
  import opened JsonStrings
  import opened JsonDocument
  import I = Itoa
  import opened Wrappers

  /** An open object or array, and how many names and values have been written in it. */
  datatype Level = Level(inArray: bool, valueCount: nat)

  /** What has to stand before the next value or name. */
  function Separator(levels: seq<Level>): Text {
    if levels == [] || levels[|levels| - 1].valueCount == 0 then []
    else if levels[|levels| - 1].inArray || levels[|levels| - 1].valueCount % 2 == 0 then [',' as int]
    else [':' as int]
  }

  function Counted(levels: seq<Level>): seq<Level> {
    if levels == [] then []
    else
      var top := levels[|levels| - 1];
      levels[|levels| - 1 := top.(valueCount := top.valueCount + 1)]
  }

  /** A value may come next: not a second root, and in an object every other one is a name. */
  predicate Ready(levels: seq<Level>, hasRoot: bool, isString: bool) {
    if levels == [] then !hasRoot
    else
      var top := levels[|levels| - 1];
      !top.inArray && top.valueCount % 2 == 0 ==> isString
  }

  class Writer {
    const ascii: bool            // whether the target encoding is ASCII
    var output: Text
    var levels: seq<Level>       // level_stack_
    var hasRoot: bool

    constructor (ascii: bool)
      ensures this.ascii == ascii && output == [] && levels == [] && !hasRoot
    {
      this.ascii, output, levels, hasRoot := ascii, [], [], false;
    }

    method Put(s: Text)
      modifies this`output
      ensures output == old(output) + s
    {
      output := output + s;
    }

    method Prefix(isString: bool)
      requires Ready(levels, hasRoot, isString)
      modifies this
      ensures output == old(output) + Separator(old(levels)) && levels == Counted(old(levels))
      ensures hasRoot == (old(hasRoot) || old(levels) == [])
    {
      if levels != [] {
        var level := levels[|levels| - 1];
        if level.valueCount > 0 {
          if level.inArray {
            Put([',' as int]);
          } else {
            Put(if level.valueCount % 2 == 0 then [',' as int] else [':' as int]);
          }
        }
        levels := levels[|levels| - 1 := level.(valueCount := level.valueCount + 1)];
      } else {
        hasRoot := true;
      }
    }

    /** A value has been written behind what was there before. */
    twostate predicate Wrote(text: Text)
      reads this
    {
      output == old(output) + Separator(old(levels)) + text && levels == Counted(old(levels))
      && hasRoot == (old(hasRoot) || old(levels) == [])
    }

    method Null()
      requires Ready(levels, hasRoot, false)
      modifies this
      ensures Wrote(Word("null"))
    {
      Prefix(false);
      Put(Word("null"));
    }

    method Bool(b: bool)
      requires Ready(levels, hasRoot, false)
      modifies this
      ensures Wrote(if b then Word("true") else Word("false"))
    {
      Prefix(false);
      Put(if b then Word("true") else Word("false"));
    }

    method Int(i: int)
      requires Ready(levels, hasRoot, false) && -0x8000_0000 <= i < 0x8000_0000
      modifies this
      ensures Wrote(I.SignedDecimal(i))
    {
      Prefix(false);
      var buffer := new Byte[11];
      var end := I.I32ToA(i, buffer, 0);
      assert buffer[..end] == I.SignedDecimal(i);
      Put(buffer[..end]);
    }

    method Uint(u: int)
      requires Ready(levels, hasRoot, false) && 0 <= u <= MAX_UINT
      modifies this
      ensures Wrote(I.SignedDecimal(u))
    {
      Prefix(false);
      var buffer := new Byte[10];
      var end := I.U32ToA(u, buffer, 0);
      assert buffer[..end] == I.SignedDecimal(u);
      Put(buffer[..end]);
    }

    method Int64(i: int)
      requires Ready(levels, hasRoot, false) && -0x8000_0000_0000_0000 <= i < 0x8000_0000_0000_0000
      modifies this
      ensures Wrote(I.SignedDecimal(i))
    {
      Prefix(false);
      var buffer := new Byte[21];
      var end := I.I64ToA(i, buffer, 0);
      assert buffer[..end] == I.SignedDecimal(i);
      Put(buffer[..end]);
    }

    method Uint64(u: int)
      requires Ready(levels, hasRoot, false) && 0 <= u <= MAX_UINT64
      modifies this
      ensures Wrote(I.SignedDecimal(u))
    {
      Prefix(false);
      var buffer := new Byte[20];
      var end := I.U64ToA(u, buffer, 0);
      assert buffer[..end] == I.SignedDecimal(u);
      Put(buffer[..end]);
    }

    /** Strings and names. */
    method String(s: Text) returns (ok: bool)
      requires Ready(levels, hasRoot, true)
      modifies this
      ensures ok <==> Quoted(ascii, s).Some?
      ensures ok ==> Wrote(Quoted(ascii, s).value)
    {
      Prefix(true);
      var quoted := WriteString(ascii, s);
      ok := quoted.Some?;
      if ok { Put(quoted.value); }
    }

    method Start(inArray: bool)
      requires Ready(levels, hasRoot, false)
      modifies this
      ensures output == old(output) + Separator(old(levels)) + [if inArray then '[' as int else '{' as int]
      ensures levels == Counted(old(levels)) + [Level(inArray, 0)]
      ensures hasRoot == (old(hasRoot) || old(levels) == [])
    {
      Prefix(false);
      levels := levels + [Level(inArray, 0)];
      Put([if inArray then '[' as int else '{' as int]);
    }

    method End(inArray: bool)
      requires levels != [] && levels[|levels| - 1].inArray == inArray
      requires !inArray ==> levels[|levels| - 1].valueCount % 2 == 0
      modifies this
      ensures levels == old(levels)[..|old(levels)| - 1] && hasRoot == old(hasRoot)
      ensures output == old(output) + [if inArray then ']' as int else '}' as int]
    {
      levels := levels[..|levels| - 1];
      Put([if inArray then ']' as int else '}' as int]);
    }

    method Number(i: int)
      requires Ready(levels, hasRoot, false) && IsInt64OrUint64(i)
      modifies this
      ensures Wrote(I.SignedDecimal(i))
    {
      match AcceptNumber(i)
      case Int(_) => Int(i);
      case Uint(_) => Uint(i);
      case Int64(_) => Int64(i);
      case Uint64(_) => Uint64(i);
    }
  }

  /// ## `Accept`

  /** The text of the elements from the `i`-th on, with the comma before them. */
  function ElementsFrom(ascii: bool, elements: seq<Value>, i: nat): Option<Text>
    requires i <= |elements| && forall e :: e in elements ==> DoubleFree(e)
  {
    if i == |elements| then Some([])
    else Append(Some(if i > 0 then [',' as int] else []), PrintedElements(ascii, elements[i..]))
  }

  lemma AppendAssociates(a: Option<Text>, b: Option<Text>, c: Option<Text>)
    ensures Append(Append(a, b), c) == Append(a, Append(b, c))
  {
    if a.Some? && b.Some? && c.Some? {
      assert (a.value + b.value) + c.value == a.value + (b.value + c.value);
    }
  }

  lemma ElementsStep(ascii: bool, elements: seq<Value>, i: nat)
    requires i < |elements| && forall e :: e in elements ==> DoubleFree(e)
    ensures ElementsFrom(ascii, elements, i)
            == Append(Append(Some(if i > 0 then [',' as int] else []), Printed(ascii, elements[i])),
                      ElementsFrom(ascii, elements, i + 1))
  {
    assert elements[i..][1..] == elements[i + 1..];
    AppendAssociates(Some(if i > 0 then [',' as int] else []), Printed(ascii, elements[i]),
                     ElementsFrom(ascii, elements, i + 1));
  }

  /** The text of the members from the `i`-th on, with the comma before them. */
  function MembersFrom(ascii: bool, members: seq<Member>, i: nat): Option<Text>
    requires i <= |members| && forall m :: m in members ==> DoubleFree(m.value)
  {
    if i == |members| then Some([])
    else Append(Some(if i > 0 then [',' as int] else []), PrintedMembers(ascii, members[i..]))
  }

  lemma MembersStep(ascii: bool, members: seq<Member>, i: nat)
    requires i < |members| && forall m :: m in members ==> DoubleFree(m.value)
    ensures MembersFrom(ascii, members, i)
            == Append(Append(Some(if i > 0 then [',' as int] else []), PrintedMember(ascii, members[i])),
                      MembersFrom(ascii, members, i + 1))
  {
    assert members[i..][1..] == members[i + 1..];
    AppendAssociates(Some(if i > 0 then [',' as int] else []), PrintedMember(ascii, members[i]),
                     MembersFrom(ascii, members, i + 1));
  }

  lemma OnTop(below: seq<Level>, level: Level)
    ensures Separator(below + [level])
            == if level.valueCount == 0 then []
               else if level.inArray || level.valueCount % 2 == 0 then [',' as int] else [':' as int]
    ensures Counted(below + [level]) == below + [level.(valueCount := level.valueCount + 1)]
  {
  }

  /** Where the loop over the elements is: `done` has been written, and the rest is to come. */
  ghost predicate ElementsDone(ascii: bool, elements: seq<Value>, i: nat, done: Text)
    requires i <= |elements| && forall e :: e in elements ==> DoubleFree(e)
  {
    PrintedElements(ascii, elements) == Append(Some(done), ElementsFrom(ascii, elements, i))
  }

  lemma ElementsStart(ascii: bool, elements: seq<Value>)
    requires forall e :: e in elements ==> DoubleFree(e)
    ensures ElementsDone(ascii, elements, 0, [])
  {
    assert elements[0..] == elements;
    AppendNothing(PrintedElements(ascii, elements));
  }

  lemma ElementsAdvance(ascii: bool, elements: seq<Value>, i: nat, done: Text)
    requires i < |elements| && forall e :: e in elements ==> DoubleFree(e)
    requires ElementsDone(ascii, elements, i, done)
    ensures Printed(ascii, elements[i]).None? ==> PrintedElements(ascii, elements).None?
    ensures Printed(ascii, elements[i]).Some? ==>
              ElementsDone(ascii, elements, i + 1,
                           done + (if i > 0 then [',' as int] else []) + Printed(ascii, elements[i]).value)
  {
    var sep: Text := if i > 0 then [',' as int] else [];
    ElementsStep(ascii, elements, i);
    if Printed(ascii, elements[i]).Some? {
      var text := Printed(ascii, elements[i]).value;
      AppendAssociates(Some(done), Some(sep + text), ElementsFrom(ascii, elements, i + 1));
      assert done + (sep + text) == done + sep + text;
    }
  }

  ghost predicate MembersDone(ascii: bool, members: seq<Member>, i: nat, done: Text)
    requires i <= |members| && forall m :: m in members ==> DoubleFree(m.value)
  {
    PrintedMembers(ascii, members) == Append(Some(done), MembersFrom(ascii, members, i))
  }

  lemma MembersStart(ascii: bool, members: seq<Member>)
    requires forall m :: m in members ==> DoubleFree(m.value)
    ensures MembersDone(ascii, members, 0, [])
  {
    assert members[0..] == members;
    AppendNothing(PrintedMembers(ascii, members));
  }

  lemma MembersAdvance(ascii: bool, members: seq<Member>, i: nat, done: Text)
    requires i < |members| && forall m :: m in members ==> DoubleFree(m.value)
    requires MembersDone(ascii, members, i, done)
    ensures PrintedMember(ascii, members[i]).None? ==> PrintedMembers(ascii, members).None?
    ensures PrintedMember(ascii, members[i]).Some? ==>
              MembersDone(ascii, members, i + 1,
                          done + (if i > 0 then [',' as int] else []) + PrintedMember(ascii, members[i]).value)
  {
    var sep: Text := if i > 0 then [',' as int] else [];
    MembersStep(ascii, members, i);
    if PrintedMember(ascii, members[i]).Some? {
      var text := PrintedMember(ascii, members[i]).value;
      AppendAssociates(Some(done), Some(sep + text), MembersFrom(ascii, members, i + 1));
      assert done + (sep + text) == done + sep + text;
    }
  }

  lemma AppendNothing(a: Option<Text>)
    ensures Append(Some([]), a) == a && Append(a, Some([])) == a
  {
    if a.Some? {
      assert [] + a.value == a.value && a.value + [] == a.value;
    }
  }

  /** Gives the events of a value to the writer: what is written is the JSON text of the value. */
  method Accept(v: Value, writer: Writer) returns (ok: bool)
    requires DoubleFree(v) && Ready(writer.levels, writer.hasRoot, v.StringValue?)
    modifies writer
    ensures ok <==> Printed(writer.ascii, v).Some?
    ensures ok ==> writer.Wrote(Printed(writer.ascii, v).value)
    decreases v
  {
    ok := true;
    match v
    case NullValue => writer.Null();
    case BoolValue(b) => writer.Bool(b);
    case NumberValue(n) => writer.Number(n.i);
    case StringValue(s) => ok := writer.String(s);
    case ArrayValue(elements) => ok := AcceptArray(elements, writer);
    case ObjectValue(members) => ok := AcceptObject(members, writer);
  }

  method AcceptArray(elements: seq<Value>, writer: Writer) returns (ok: bool)
    requires forall e :: e in elements ==> DoubleFree(e)
    requires Ready(writer.levels, writer.hasRoot, false)
    modifies writer
    ensures ok <==> PrintedElements(writer.ascii, elements).Some?
    ensures ok ==> writer.Wrote(['[' as int] + (PrintedElements(writer.ascii, elements).value + [']' as int]))
    decreases elements, 1
  {
    writer.Start(true);
    ok := AcceptElements(elements, writer, Counted(old(writer.levels)));
    if ok { writer.End(true); }
  }

  /** The loop over the elements. */
  method AcceptElements(elements: seq<Value>, writer: Writer, ghost below: seq<Level>) returns (ok: bool)
    requires forall e :: e in elements ==> DoubleFree(e)
    requires writer.levels == below + [Level(true, 0)]
    modifies writer
    ensures ok <==> PrintedElements(writer.ascii, elements).Some?
    ensures ok ==> writer.output == old(writer.output) + PrintedElements(writer.ascii, elements).value
    ensures ok ==> writer.levels == below + [Level(true, |elements|)] && writer.hasRoot == old(writer.hasRoot)
    decreases elements, 0
  {
    ghost var done: Text := [];
    ElementsStart(writer.ascii, elements);
    for i := 0 to |elements|
      invariant ElementsDone(writer.ascii, elements, i, done)
      invariant writer.output == old(writer.output) + done
      invariant writer.levels == below + [Level(true, i)] && writer.hasRoot == old(writer.hasRoot)
    {
      OnTop(below, Level(true, i));
      ElementsAdvance(writer.ascii, elements, i, done);
      ok := Accept(elements[i], writer);
      if !ok { return; }
      done := done + (if i > 0 then [',' as int] else []) + Printed(writer.ascii, elements[i]).value;
    }
    ok := true;
    AppendNothing(Some(done));
  }

  method AcceptObject(members: seq<Member>, writer: Writer) returns (ok: bool)
    requires forall m :: m in members ==> DoubleFree(m.value)
    requires Ready(writer.levels, writer.hasRoot, false)
    modifies writer
    ensures ok <==> PrintedMembers(writer.ascii, members).Some?
    ensures ok ==> writer.Wrote(['{' as int] + (PrintedMembers(writer.ascii, members).value + ['}' as int]))
    decreases members, 1
  {
    writer.Start(false);
    ok := AcceptMembers(members, writer, Counted(old(writer.levels)));
    if ok { writer.End(false); }
  }

  /** The loop over the members: names and values alternate. */
  method AcceptMembers(members: seq<Member>, writer: Writer, ghost below: seq<Level>) returns (ok: bool)
    requires forall m :: m in members ==> DoubleFree(m.value)
    requires writer.levels == below + [Level(false, 0)]
    modifies writer
    ensures ok <==> PrintedMembers(writer.ascii, members).Some?
    ensures ok ==> writer.output == old(writer.output) + PrintedMembers(writer.ascii, members).value
    ensures ok ==> writer.levels == below + [Level(false, 2 * |members|)] && writer.hasRoot == old(writer.hasRoot)
    decreases members, 0
  {
    ghost var done: Text := [];
    MembersStart(writer.ascii, members);
    for i := 0 to |members|
      invariant MembersDone(writer.ascii, members, i, done)
      invariant writer.output == old(writer.output) + done
      invariant writer.levels == below + [Level(false, 2 * i)] && writer.hasRoot == old(writer.hasRoot)
    {
      MembersAdvance(writer.ascii, members, i, done);
      ok := AcceptMember(members[i], writer, below, 2 * i);
      if !ok { return; }
      OutputRegrouped(old(writer.output), done, if i > 0 then [',' as int] else [],
                      PrintedMember(writer.ascii, members[i]).value, []);
      done := done + (if i > 0 then [',' as int] else []) + PrintedMember(writer.ascii, members[i]).value;
    }
    ok := true;
    AppendNothing(Some(done));
  }

  lemma OutputRegrouped(a: Text, b: Text, c: Text, d: Text, e: Text)
    ensures a + b + c + d + e == a + b + (c + (d + e))
    ensures (a + b) + c + d == a + (b + c + d)
  {
  }

  /** A name and its value. */
  method AcceptMember(m: Member, writer: Writer, ghost below: seq<Level>, ghost count: nat) returns (ok: bool)
    requires DoubleFree(m.value)
    requires writer.levels == below + [Level(false, count)] && count % 2 == 0
    modifies writer
    ensures ok <==> PrintedMember(writer.ascii, m).Some?
    ensures ok ==> writer.output == old(writer.output) + (if count > 0 then [',' as int] else [])
                                    + PrintedMember(writer.ascii, m).value
    ensures ok ==> writer.levels == below + [Level(false, count + 2)] && writer.hasRoot == old(writer.hasRoot)
    decreases m
  {
    OnTop(below, Level(false, count));
    ok := writer.String(m.name);
    if !ok { return; }
    OnTop(below, Level(false, count + 1));
    ok := Accept(m.value, writer);
    if ok {
      OutputRegrouped(old(writer.output), if count > 0 then [',' as int] else [], Quoted(writer.ascii, m.name).value,
                [':' as int], Printed(writer.ascii, m.value).value);
    }
  }
}
