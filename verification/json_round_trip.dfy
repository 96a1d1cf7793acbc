/** Parsing a printed document rebuilds the document. */
module JsonRoundTrip {
  import opened Characters
  import opened JsonText
  import opened JsonNumbers
  import opened JsonStrings
  import opened JsonReader
  import opened JsonDocument
  import JsonAgreement
  import I = Itoa
  import U = Utf
  import opened Wrappers

  /** A handler that never stops parsing, as the handlers of a document. */
  const WILLING: Handler := events => true

  /** The text begins with something that is neither skipped nor closes anything. */
  predicate BeginsValue(text: Text) {
    text != [] && text[0] != 0 && !IsSpace(text[0]) && text[0] != '/' as int
    && text[0] != ']' as int && text[0] != '}' as int && text[0] != ',' as int && text[0] != ':' as int
  }

  lemma NothingToSkip(flags: Flags, st: Stream)
    requires st.rest == [] || (!IsSpace(st.rest[0]) && st.rest[0] != '/' as int)
    ensures Skipped(flags, st) == Ok(st)
  {
  }

  lemma PrintedBegins(ascii: bool, v: Value, rest: Text)
    requires DoubleFree(v) && Printed(ascii, v).Some?
    ensures BeginsValue(Printed(ascii, v).value + rest)
  {
    if v.NumberValue? {
      var d := I.SignedDecimal(v.n.i);
      assert d[0] == '-' as int || IsDigit(d[0]);
    }
  }

  lemma ReadsPrintedWord(word: string, event: Event, rest: Text)
    requires word != "" && forall i :: 0 <= i < |word| ==> word[i] < 256 as char
    ensures ReadWord(Word(word) + rest, word, event) == Lexed(event, rest)
  {
    assert (Word(word) + rest)[|word|..] == rest;
  }

  lemma ReadsPrintedNumber(ascii: bool, i: int, rest: Text)
    requires IsInt64OrUint64(i) && I.EndsNumber(rest)
    ensures ReadScalar(I.SignedDecimal(i) + rest) == Lexed(Numeric(ReadBack(i)), rest)
  {
    I.ReadsPrinted(i, rest);
    var d := I.SignedDecimal(i);
    assert d[0] == '-' as int || IsDigit(d[0]);
  }

  lemma ReadsPrintedString(ascii: bool, s: Text, rest: Text)
    requires Quoted(ascii, s).Some?
    ensures var text := Quoted(ascii, s).value + rest;
            text[0] == '\"' as int && ReadString(text[1..]) == Lexed(s, rest)
  {
    var body := Written(ascii, s).value;
    ReadsWritten(ascii, s, rest);
    var text := Quoted(ascii, s).value + rest;
    assert text[1..] == body + (['\"' as int] + rest);
  }

  lemma ReadsPrintedScalar(ascii: bool, v: Value, rest: Text)
    requires DoubleFree(v) && Printed(ascii, v).Some? && I.EndsNumber(rest)
    requires !v.ObjectValue? && !v.ArrayValue?
    ensures ReadScalar(Printed(ascii, v).value + rest) == Lexed(Events(v, ReadBack)[0], rest)
  {
    match v
    case NullValue => ReadsPrintedWord("null", Null, rest);
    case BoolValue(b) =>
      if b { ReadsPrintedWord("true", Bool(true), rest); } else { ReadsPrintedWord("false", Bool(false), rest); }
    case NumberValue(n) => ReadsPrintedNumber(ascii, n.i, rest);
    case StringValue(s) => ReadsPrintedString(ascii, s, rest);
  }

  /** The events follow what has been emitted before. */
  function After(rest: Text, before: seq<Event>, events: seq<Event>): Outcome {
    Ok(Stream(rest, before + events))
  }

  lemma {:induction false} ReadsPrintedValue(flags: Flags, ascii: bool, v: Value, rest: Text, before: seq<Event>)
    requires DoubleFree(v) && Printed(ascii, v).Some? && I.EndsNumber(rest)
    ensures ReadValue(flags, WILLING, Stream(Printed(ascii, v).value + rest, before))
            == After(rest, before, Events(v, ReadBack))
    decreases v, 0
  {
    PrintedBegins(ascii, v, rest);
    match v
    case ObjectValue(_) => ReadsPrintedObject(flags, ascii, v, rest, before);
    case ArrayValue(_) => ReadsPrintedArray(flags, ascii, v, rest, before);
    case _ => ReadsPrintedScalar(ascii, v, rest);
  }

  lemma Bracketed<T>(open: seq<T>, body: seq<T>, close: seq<T>, rest: seq<T>)
    ensures open + (body + close) + rest == open + (body + (close + rest))
    ensures rest + open + (body + close) == rest + (open + body + close)
  {
  }

  lemma Joined<T>(before: seq<T>, first: seq<T>, more: seq<T>, close: seq<T>)
    ensures (before + first) + (more + close) == before + ((first + more) + close)
  {
  }

  lemma {:induction false} ReadsPrintedArray(flags: Flags, ascii: bool, v: Value, rest: Text, before: seq<Event>)
    requires v.ArrayValue? && DoubleFree(v) && Printed(ascii, v).Some? && I.EndsNumber(rest)
    ensures ReadValue(flags, WILLING, Stream(Printed(ascii, v).value + rest, before))
            == After(rest, before, Events(v, ReadBack))
    decreases v.elements, 1
  {
    var body := PrintedElements(ascii, v.elements).value;
    var text := Printed(ascii, v).value + rest;
    var inner := body + ([']' as int] + rest);
    Bracketed(['[' as int], body, [']' as int], rest);
    assert text[1..] == inner;
    var started := before + [StartArray];
    ArrayInside(flags, ascii, v.elements, rest, started);
    Bracketed([StartArray], ElementEvents(v.elements, ReadBack), [EndArray(|v.elements|)], before);
  }

  /** What `ReadArray` does behind the opening bracket. */
  lemma {:induction false} ArrayInside(flags: Flags, ascii: bool, elements: seq<Value>, rest: Text, before: seq<Event>)
    requires (forall e :: e in elements ==> DoubleFree(e)) && PrintedElements(ascii, elements).Some?
             && I.EndsNumber(rest)
    ensures var st := Stream(PrintedElements(ascii, elements).value + ([']' as int] + rest), before);
            var events := ElementEvents(elements, ReadBack) + [EndArray(|elements|)];
            && Skipped(flags, st) == Ok(st)
            && (if Peek(st.rest) == ']' as int then Emit(WILLING, Took(st), EndArray(0))
                else ReadElements(flags, WILLING, st, 0)) == After(rest, before, events)
    decreases elements, 0, 1
  {
    var st := Stream(PrintedElements(ascii, elements).value + ([']' as int] + rest), before);
    if elements == [] {
      assert st.rest == [']' as int] + rest;
      assert [] + [EndArray(0)] == [EndArray(0)];
    } else {
      ElementsBegin(ascii, elements, [']' as int] + rest);
      ReadsPrintedElements(flags, ascii, elements, rest, before, 0);
    }
    NothingToSkip(flags, st);
  }

  lemma ElementsBegin(ascii: bool, elements: seq<Value>, rest: Text)
    requires elements != [] && forall e :: e in elements ==> DoubleFree(e)
    requires PrintedElements(ascii, elements).Some?
    ensures BeginsValue(PrintedElements(ascii, elements).value + rest)
  {
    PrintedBegins(ascii, elements[0], []);
  }

  /** The text behind an element: the end of the array, or a comma and more elements. */
  function ElementsTail(ascii: bool, elements: seq<Value>, rest: Text): Text
    requires elements != [] && forall e :: e in elements ==> DoubleFree(e)
    requires PrintedElements(ascii, elements).Some?
  {
    if |elements| == 1 then [']' as int] + rest
    else [',' as int] + (PrintedElements(ascii, elements[1..]).value + ([']' as int] + rest))
  }

  lemma ElementsText(ascii: bool, elements: seq<Value>, rest: Text)
    requires elements != [] && forall e :: e in elements ==> DoubleFree(e)
    requires PrintedElements(ascii, elements).Some?
    ensures PrintedElements(ascii, elements).value + ([']' as int] + rest)
            == Printed(ascii, elements[0]).value + ElementsTail(ascii, elements, rest)
    ensures I.EndsNumber(ElementsTail(ascii, elements, rest))
  {
  }

  lemma {:induction false} ReadsPrintedElements(flags: Flags, ascii: bool, elements: seq<Value>, rest: Text,
                                                before: seq<Event>, count: nat)
    requires elements != [] && forall e :: e in elements ==> DoubleFree(e)
    requires PrintedElements(ascii, elements).Some? && I.EndsNumber(rest)
    ensures ReadElements(flags, WILLING, Stream(PrintedElements(ascii, elements).value + ([']' as int] + rest), before),
            count)
            == After(rest, before, ElementEvents(elements, ReadBack) + [EndArray(count + |elements|)])
    decreases elements, 0, 0
  {
    ElementsText(ascii, elements, rest);
    ReadsPrintedValue(flags, ascii, elements[0], ElementsTail(ascii, elements, rest), before);
    var events := before + Events(elements[0], ReadBack);
    ReadsPrintedElementsTail(flags, ascii, elements, rest, events, count);
    Joined(before, Events(elements[0], ReadBack), ElementEvents(elements[1..], ReadBack),
           [EndArray(count + |elements|)]);
  }

  lemma {:induction false} ReadsPrintedElementsTail(flags: Flags, ascii: bool, elements: seq<Value>, rest: Text,
                                                    events: seq<Event>, count: nat)
    requires elements != [] && forall e :: e in elements ==> DoubleFree(e)
    requires PrintedElements(ascii, elements).Some? && I.EndsNumber(rest)
    ensures ReadElementEnd(flags, WILLING, Stream(ElementsTail(ascii, elements, rest), events), count)
            == After(rest, events, ElementEvents(elements[1..], ReadBack) + [EndArray(count + |elements|)])
    decreases elements, -1
  {
    var tail := ElementsTail(ascii, elements, rest);
    NothingToSkip(flags, Stream(tail, events));
    if |elements| == 1 {
      assert tail[1..] == rest;
    } else {
      ElementsBegin(ascii, elements[1..], [']' as int] + rest);
      NothingToSkip(flags, Stream(tail[1..], events));
      ReadsPrintedElements(flags, ascii, elements[1..], rest, events, count + 1);
    }
  }

  lemma {:induction false} ReadsPrintedObject(flags: Flags, ascii: bool, v: Value, rest: Text, before: seq<Event>)
    requires v.ObjectValue? && DoubleFree(v) && Printed(ascii, v).Some? && I.EndsNumber(rest)
    ensures ReadValue(flags, WILLING, Stream(Printed(ascii, v).value + rest, before))
            == After(rest, before, Events(v, ReadBack))
    decreases v.members, 1
  {
    var body := PrintedMembers(ascii, v.members).value;
    var text := Printed(ascii, v).value + rest;
    var inner := body + (['}' as int] + rest);
    Bracketed(['{' as int], body, ['}' as int], rest);
    assert text[1..] == inner;
    var started := before + [StartObject];
    ObjectInside(flags, ascii, v.members, rest, started);
    Bracketed([StartObject], MemberEvents(v.members, ReadBack), [EndObject(|v.members|)], before);
  }

  /** What `ReadObject` does behind the opening bracket. */
  lemma EmptyObjectInside(rest: Text, before: seq<Event>)
    ensures [] + (['}' as int] + rest) == ['}' as int] + rest && [] + [EndObject(0)] == [EndObject(0)]
    ensures Emit(WILLING, Took(Stream(['}' as int] + rest, before)), EndObject(0))
            == After(rest, before, [EndObject(0)])
  {
    assert (['}' as int] + rest)[1..] == rest;
  }

  lemma {:induction false} ObjectInside(flags: Flags, ascii: bool, members: seq<Member>, rest: Text, before: seq<Event>)
    requires (forall m :: m in members ==> DoubleFree(m.value)) && PrintedMembers(ascii, members).Some?
             && I.EndsNumber(rest)
    ensures var st := Stream(PrintedMembers(ascii, members).value + (['}' as int] + rest), before);
            var events := MemberEvents(members, ReadBack) + [EndObject(|members|)];
            && Skipped(flags, st) == Ok(st)
            && (if Peek(st.rest) == '}' as int then Emit(WILLING, Took(st), EndObject(0))
                else ReadMembers(flags, WILLING, st, 0)) == After(rest, before, events)
    decreases members, 0, 1
  {
    var st := Stream(PrintedMembers(ascii, members).value + (['}' as int] + rest), before);
    if members == [] {
      EmptyObjectInside(rest, before);
    } else {
      MembersBegin(ascii, members, ['}' as int] + rest);
      ReadsPrintedMembers(flags, ascii, members, rest, before, 0);
    }
    NothingToSkip(flags, st);
  }

  lemma MembersBegin(ascii: bool, members: seq<Member>, rest: Text)
    requires members != [] && forall m :: m in members ==> DoubleFree(m.value)
    requires PrintedMembers(ascii, members).Some?
    ensures var text := PrintedMembers(ascii, members).value + rest;
            text != [] && text[0] == '\"' as int
  {
    assert PrintedMember(ascii, members[0]).value[0] == '\"' as int;
  }

  /** The text behind a member: the end of the object, or a comma and more members. */
  function MembersTail(ascii: bool, members: seq<Member>, rest: Text): Text
    requires members != [] && forall m :: m in members ==> DoubleFree(m.value)
    requires PrintedMembers(ascii, members).Some?
  {
    if |members| == 1 then ['}' as int] + rest
    else [',' as int] + (PrintedMembers(ascii, members[1..]).value + (['}' as int] + rest))
  }

  lemma ReadsPrintedName(flags: Flags, ascii: bool, name: Text, rest: Text, before: seq<Event>)
    requires Quoted(ascii, name).Some?
    ensures ReadName(flags, WILLING, Stream(Quoted(ascii, name).value + ([':' as int] + rest), before))
            == After(rest, before, [Key(name)])
  {
    var body := Written(ascii, name).value;
    var behind := [':' as int] + rest;
    ReadsWritten(ascii, name, behind);
    var text := Quoted(ascii, name).value + behind;
    assert text == ['\"' as int] + (body + (['\"' as int] + behind));
    assert text[1..] == body + (['\"' as int] + behind);
    NothingToSkip(flags, Stream(behind, before + [Key(name)]));
    assert behind[1..] == rest;
  }

  lemma {:induction false} MembersText(ascii: bool, members: seq<Member>, rest: Text)
    requires members != [] && forall m :: m in members ==> DoubleFree(m.value)
    requires PrintedMembers(ascii, members).Some?
    ensures Quoted(ascii, members[0].name).Some? && Printed(ascii, members[0].value).Some?
    ensures PrintedMembers(ascii, members).value + (['}' as int] + rest)
            == Quoted(ascii, members[0].name).value
               + ([':' as int] + (Printed(ascii, members[0].value).value + MembersTail(ascii, members, rest)))
    ensures I.EndsNumber(MembersTail(ascii, members, rest))
  {
    var name, value := Quoted(ascii, members[0].name).value, Printed(ascii, members[0].value).value;
    if |members| == 1 {
      MemberText(name, value, [], ['}' as int] + rest);
    } else {
      var more := PrintedMembers(ascii, members[1..]).value;
      MemberText(name, value, [',' as int] + more, ['}' as int] + rest);
      assert [',' as int] + more + (['}' as int] + rest) == [',' as int] + (more + (['}' as int] + rest));
    }
  }

  lemma MemberText(name: Text, value: Text, more: Text, rest: Text)
    ensures name + ([':' as int] + value) + more + rest == name + ([':' as int] + (value + (more + rest)))
    ensures [] + rest == rest
  {
  }

  lemma FirstMember(before: seq<Event>, members: seq<Member>, close: seq<Event>)
    requires members != []
    ensures var m := members[0];
            before + [Key(m.name)] + Events(m.value, ReadBack) + (MemberEvents(members[1..], ReadBack) + close)
            == before + (MemberEvents(members, ReadBack) + close)
  {
    var m := members[0];
    var first := [Key(m.name)] + Events(m.value, ReadBack);
    assert before + [Key(m.name)] + Events(m.value, ReadBack) == before + first;
    Joined(before, first, MemberEvents(members[1..], ReadBack), close);
  }

  lemma {:induction false} ReadsPrintedMembers(flags: Flags, ascii: bool, members: seq<Member>, rest: Text,
                                               before: seq<Event>, count: nat)
    requires members != [] && forall m :: m in members ==> DoubleFree(m.value)
    requires PrintedMembers(ascii, members).Some? && I.EndsNumber(rest)
    ensures ReadMembers(flags, WILLING, Stream(PrintedMembers(ascii, members).value + (['}' as int] + rest), before),
            count)
            == After(rest, before, MemberEvents(members, ReadBack) + [EndObject(count + |members|)])
    decreases members, 0, 0
  {
    var m := members[0];
    var value, tail := Printed(ascii, m.value).value, MembersTail(ascii, members, rest);
    MembersText(ascii, members, rest);
    ReadsPrintedName(flags, ascii, m.name, value + tail, before);
    var named := before + [Key(m.name)];
    PrintedBegins(ascii, m.value, tail);
    NothingToSkip(flags, Stream(value + tail, named));
    ReadsPrintedValue(flags, ascii, m.value, tail, named);
    var events := named + Events(m.value, ReadBack);
    ReadsPrintedMembersTail(flags, ascii, members, rest, events, count);
    FirstMember(before, members, [EndObject(count + |members|)]);
  }

  lemma {:induction false} ReadsPrintedMembersTail(flags: Flags, ascii: bool, members: seq<Member>, rest: Text,
                                                   events: seq<Event>, count: nat)
    requires members != [] && forall m :: m in members ==> DoubleFree(m.value)
    requires PrintedMembers(ascii, members).Some? && I.EndsNumber(rest)
    ensures ReadMemberEnd(flags, WILLING, Stream(MembersTail(ascii, members, rest), events), count)
            == After(rest, events, MemberEvents(members[1..], ReadBack) + [EndObject(count + |members|)])
    decreases members, -1
  {
    var tail := MembersTail(ascii, members, rest);
    NothingToSkip(flags, Stream(tail, events));
    if |members| == 1 {
      assert tail[1..] == rest;
    } else {
      MembersBegin(ascii, members[1..], ['}' as int] + rest);
      NothingToSkip(flags, Stream(tail[1..], events));
      ReadsPrintedMembers(flags, ascii, members[1..], rest, events, count + 1);
    }
  }

  /** The inverse of printing: with every combination of flags, both parsers read the text of a
      double-free value to its end, and the handlers of a document are left with this value alone. */
  lemma ParsesPrinted(flags: Flags, ascii: bool, v: Value)
    requires DoubleFree(v) && Printed(ascii, v).Some?
    ensures Read(flags, WILLING, Printed(ascii, v).value) == Ok(Stream([], Events(v, ReadBack)))
    ensures ReadIteratively(flags, WILLING, Printed(ascii, v).value) == Ok(Stream([], Events(v, ReadBack)))
    ensures HandleAll([], Events(v, ReadBack)) == Some([v])
  {
    var text := Printed(ascii, v).value;
    PrintedBegins(ascii, v, []);
    assert text + [] == text;
    NothingToSkip(flags, Stream(text, []));
    ReadsPrintedValue(flags, ascii, v, [], []);
    assert [] + Events(v, ReadBack) == Events(v, ReadBack);
    NothingToSkip(flags, Stream([], Events(v, ReadBack)));
    JsonAgreement.ParsersAgree(flags, WILLING, text);
    EventsBuild([], v, ReadBack);
    assert [] + [v] == [v];
  }

  /** Accepting a value into the handlers of another document copies it. */
  lemma AcceptCopies(stack: seq<Value>, v: Value)
    ensures HandleAll(stack, Events(v, AcceptNumber)) == Some(stack + [v])
  {
    EventsBuild(stack, v, AcceptNumber);
  }

  /** All names and strings of the value are well-formed UTF-8. */
  ghost predicate Utf8Strings(v: Value) {
    match v
    case StringValue(s) => U.WellFormed(s)
    case ObjectValue(members) => forall m :: m in members ==> U.WellFormed(m.name) && Utf8Strings(m.value)
    case ArrayValue(elements) => forall e :: e in elements ==> Utf8Strings(e)
    case _ => true
  }

  /** Which values can be written: all of them in UTF-8, and in ASCII those with well-formed strings. */
  lemma {:induction false} PrintedIff(ascii: bool, v: Value)
    requires DoubleFree(v)
    ensures Printed(ascii, v).Some? <==> !ascii || Utf8Strings(v)
    decreases v, 0
  {
    match v
    case StringValue(s) => WrittenIff(ascii, s);
    case ObjectValue(members) => PrintedMembersIff(ascii, members);
    case ArrayValue(elements) => PrintedElementsIff(ascii, elements);
    case _ =>
  }

  lemma {:induction false} PrintedMembersIff(ascii: bool, members: seq<Member>)
    requires forall m :: m in members ==> DoubleFree(m.value)
    ensures PrintedMembers(ascii, members).Some?
            <==> !ascii || forall m :: m in members ==> U.WellFormed(m.name) && Utf8Strings(m.value)
    decreases members, 0
  {
    if members != [] {
      var m := members[0];
      WrittenIff(ascii, m.name);
      PrintedIff(ascii, m.value);
      PrintedMembersIff(ascii, members[1..]);
      assert members == [m] + members[1..];
    }
  }

  lemma {:induction false} PrintedElementsIff(ascii: bool, elements: seq<Value>)
    requires forall e :: e in elements ==> DoubleFree(e)
    ensures PrintedElements(ascii, elements).Some? <==> !ascii || forall e :: e in elements ==> Utf8Strings(e)
    decreases elements, 0
  {
    if elements != [] {
      PrintedIff(ascii, elements[0]);
      PrintedElementsIff(ascii, elements[1..]);
      assert elements == [elements[0]] + elements[1..];
    }
  }
}
