/** Whatever text is parsed: a successful parse leaves exactly one value on the stack of a document. */
module JsonBuilding {
  import opened JsonText
  import opened JsonReader
  import opened JsonDocument
  import JsonAgreement
  import opened Wrappers

  /** The events between two points of the stream take the stack of a document from one to another. */
  ghost predicate Builds(from: Stream, to: Stream, stack: seq<Value>, stack': seq<Value>) {
    from.events <= to.events && HandleAll(stack, to.events[|from.events|..]) == Some(stack')
  }

  lemma BuildsNothing(from: Stream, to: Stream, stack: seq<Value>)
    requires to.events == from.events
    ensures Builds(from, to, stack, stack)
  {
  }

  lemma BuildsOne(h: Handler, from: Stream, event: Event, stack: seq<Value>)
    requires Emit(h, from, event).Ok? && Handle(stack, event).Some?
    ensures Builds(from, Emit(h, from, event).stream, stack, Handle(stack, event).value)
  {
    HandleOne(stack, event);
    assert (from.events + [event])[|from.events|..] == [event];
  }

  lemma BuildsThen(a: Stream, b: Stream, c: Stream, s: seq<Value>, t: seq<Value>, u: seq<Value>)
    requires Builds(a, b, s, t) && Builds(b, c, t, u)
    ensures Builds(a, c, s, u)
  {
    var first, second := b.events[|a.events|..], c.events[|b.events|..];
    assert c.events[|a.events|..] == first + second;
    HandleAllAppend(s, first, second);
  }

  /** A scalar pushes one value. */
  lemma ScalarBuilds(h: Handler, st: Stream, stack: seq<Value>) returns (v: Value)
    requires EmitScalar(h, st).Ok?
    ensures Builds(st, EmitScalar(h, st).stream, stack, stack + [v])
  {
    var lexed := ReadScalar(st.rest);
    ScalarIsPushed(st.rest, stack);
    BuildsOne(h, st.(rest := lexed.rest), lexed.value, stack);
    v := Handle(stack, lexed.value).value[|stack|];
  }

  lemma ScalarIsPushed(text: Text, stack: seq<Value>)
    requires ReadScalar(text).Lexed?
    ensures var pushed := Handle(stack, ReadScalar(text).value);
            pushed.Some? && |pushed.value| == |stack| + 1 && pushed.value == stack + [pushed.value[|stack|]]
  {
  }

  lemma {:induction false} ValueBuilds(flags: Flags, h: Handler, st: Stream, stack: seq<Value>) returns (v: Value)
    requires ReadValue(flags, h, st).Ok?
    ensures Builds(st, ReadValue(flags, h, st).stream, stack, stack + [v])
    decreases |st.rest|, 2
  {
    if Peek(st.rest) == '{' as int {
      v := ObjectBuilds(flags, h, st, stack);
    } else if Peek(st.rest) == '[' as int {
      v := ArrayBuilds(flags, h, st, stack);
    } else {
      v := ScalarBuilds(h, st, stack);
    }
  }

  lemma CloseObject(h: Handler, st: Stream, stack: seq<Value>, members: seq<Member>, count: nat)
    requires count == |members| && Emit(h, st, EndObject(count)).Ok?
    ensures Builds(st, Emit(h, st, EndObject(count)).stream,
                   stack + [ObjectValue([])] + Flat(members), stack + [ObjectValue(members)])
  {
    var filled := stack + [ObjectValue([])] + Flat(members);
    assert filled[|stack| + 1..] == Flat(members) && filled[..|stack|] == stack;
    MembersOfFlat(members);
    BuildsOne(h, st, EndObject(count), filled);
  }

  lemma {:induction false} ObjectBuilds(flags: Flags, h: Handler, st: Stream, stack: seq<Value>) returns (v: Value)
    requires Peek(st.rest) == '{' as int && ReadObject(flags, h, st).Ok?
    ensures Builds(st, ReadObject(flags, h, st).stream, stack, stack + [v])
    decreases |st.rest|, 1
  {
    var started := stack + [ObjectValue([])];
    var st1 := Emit(h, Took(st), StartObject).stream;
    BuildsOne(h, Took(st), StartObject, stack);
    var st2 := Skipped(flags, st1).stream;
    BuildsNothing(st1, st2, started);
    BuildsThen(st, st1, st2, stack, started, started);
    var end := ReadObject(flags, h, st).stream;
    if Peek(st2.rest) == '}' as int {
      v := ObjectValue([]);
      assert started + Flat([]) == started;
      CloseObject(h, Took(st2), stack, [], 0);
      BuildsThen(st, st2, end, stack, started, stack + [v]);
    } else {
      assert started + Flat([]) == started;
      v := MembersBuild(flags, h, st2, stack, []);
      BuildsThen(st, st2, end, stack, started, stack + [v]);
    }
  }

  lemma {:induction false} FlatAppend(members: seq<Member>, m: Member)
    ensures Flat(members + [m]) == Flat(members) + [StringValue(m.name), m.value]
  {
    if members != [] {
      assert (members + [m])[1..] == members[1..] + [m];
      FlatAppend(members[1..], m);
    } else {
      assert [m][1..] == [];
    }
  }

  /** The rest of an object of which `members` have been read. */
  lemma {:induction false} MembersBuild(flags: Flags, h: Handler, st: Stream, stack: seq<Value>, members: seq<Member>)
    returns (v: Value)
    requires ReadMembers(flags, h, st, |members|).Ok?
    ensures Builds(st, ReadMembers(flags, h, st, |members|).stream,
                   stack + [ObjectValue([])] + Flat(members), stack + [v])
    decreases |st.rest|, 0
  {
    var filled := stack + [ObjectValue([])] + Flat(members);
    var st1 := ReadName(flags, h, st).stream;
    var name := NameBuilds(flags, h, st, filled);
    var named := filled + [StringValue(name)];
    var st2 := Skipped(flags, st1).stream;
    BuildsNothing(st1, st2, named);
    BuildsThen(st, st1, st2, filled, named, named);
    var value := ValueBuilds(flags, h, st2, named);
    var st3 := ReadValue(flags, h, st2).stream;
    BuildsThen(st, st2, st3, filled, named, named + [value]);
    var members' := members + [Member(name, value)];
    FlatAppend(members, Member(name, value));
    assert named + [value] == stack + [ObjectValue([])] + Flat(members');
    v := MemberEndBuilds(flags, h, st3, stack, members');
    BuildsThen(st, st3, ReadMembers(flags, h, st, |members|).stream, filled, named + [value], stack + [v]);
  }

  lemma NameBuilds(flags: Flags, h: Handler, st: Stream, stack: seq<Value>) returns (name: Text)
    requires ReadName(flags, h, st).Ok?
    ensures Builds(st, ReadName(flags, h, st).stream, stack, stack + [StringValue(name)])
  {
    var key := EmitKey(h, st).stream;
    name := key.events[|st.events|].s;
    BuildsOne(h, st.(rest := key.rest), Key(name), stack);
  }

  lemma {:induction false} MemberEndBuilds(flags: Flags, h: Handler, st: Stream, stack: seq<Value>,
                                           members: seq<Member>)
    returns (v: Value)
    requires members != [] && ReadMemberEnd(flags, h, st, |members| - 1).Ok?
    ensures Builds(st, ReadMemberEnd(flags, h, st, |members| - 1).stream,
                   stack + [ObjectValue([])] + Flat(members), stack + [v])
    decreases |st.rest|, 3
  {
    var filled := stack + [ObjectValue([])] + Flat(members);
    var st1 := Skipped(flags, st).stream;
    BuildsNothing(st, st1, filled);
    var end := ReadMemberEnd(flags, h, st, |members| - 1).stream;
    v := ObjectValue(members);
    if Peek(st1.rest) == ',' as int {
      var st2 := Skipped(flags, Took(st1)).stream;
      BuildsNothing(st, st2, filled);
      if flags.trailingCommas && Peek(st2.rest) == '}' as int {
        CloseObject(h, Took(st2), stack, members, |members|);
      } else {
        v := MembersBuild(flags, h, st2, stack, members);
      }
      BuildsThen(st, st2, end, filled, filled, stack + [v]);
    } else {
      CloseObject(h, Took(st1), stack, members, |members|);
      BuildsThen(st, st1, end, filled, filled, stack + [v]);
    }
  }

  lemma CloseArray(h: Handler, st: Stream, stack: seq<Value>, elements: seq<Value>, count: nat)
    requires count == |elements| && Emit(h, st, EndArray(count)).Ok?
    ensures Builds(st, Emit(h, st, EndArray(count)).stream,
                   stack + [ArrayValue([])] + elements, stack + [ArrayValue(elements)])
  {
    var filled := stack + [ArrayValue([])] + elements;
    assert filled[|stack| + 1..] == elements && filled[..|stack|] == stack;
    BuildsOne(h, st, EndArray(count), filled);
  }

  lemma {:induction false} ArrayBuilds(flags: Flags, h: Handler, st: Stream, stack: seq<Value>) returns (v: Value)
    requires Peek(st.rest) == '[' as int && ReadArray(flags, h, st).Ok?
    ensures Builds(st, ReadArray(flags, h, st).stream, stack, stack + [v])
    decreases |st.rest|, 1
  {
    var started := stack + [ArrayValue([])];
    var st1 := Emit(h, Took(st), StartArray).stream;
    BuildsOne(h, Took(st), StartArray, stack);
    var st2 := Skipped(flags, st1).stream;
    BuildsNothing(st1, st2, started);
    BuildsThen(st, st1, st2, stack, started, started);
    var end := ReadArray(flags, h, st).stream;
    assert started + [] == started;
    if Peek(st2.rest) == ']' as int {
      v := ArrayValue([]);
      CloseArray(h, Took(st2), stack, [], 0);
    } else {
      v := ElementsBuild(flags, h, st2, stack, []);
    }
    BuildsThen(st, st2, end, stack, started, stack + [v]);
  }

  /** The rest of an array of which `elements` have been read. */
  lemma {:induction false} ElementsBuild(flags: Flags, h: Handler, st: Stream, stack: seq<Value>, elements: seq<Value>)
    returns (v: Value)
    requires ReadElements(flags, h, st, |elements|).Ok?
    ensures Builds(st, ReadElements(flags, h, st, |elements|).stream,
                   stack + [ArrayValue([])] + elements, stack + [v])
    decreases |st.rest|, 3
  {
    var filled := stack + [ArrayValue([])] + elements;
    var value := ValueBuilds(flags, h, st, filled);
    var st1 := ReadValue(flags, h, st).stream;
    var elements' := elements + [value];
    assert filled + [value] == stack + [ArrayValue([])] + elements';
    v := ElementEndBuilds(flags, h, st1, stack, elements');
    BuildsThen(st, st1, ReadElements(flags, h, st, |elements|).stream, filled, filled + [value], stack + [v]);
  }

  lemma {:induction false} ElementEndBuilds(flags: Flags, h: Handler, st: Stream, stack: seq<Value>,
                                            elements: seq<Value>)
    returns (v: Value)
    requires elements != [] && ReadElementEnd(flags, h, st, |elements| - 1).Ok?
    ensures Builds(st, ReadElementEnd(flags, h, st, |elements| - 1).stream,
                   stack + [ArrayValue([])] + elements, stack + [v])
    decreases |st.rest|, 4
  {
    var filled := stack + [ArrayValue([])] + elements;
    var st1 := Skipped(flags, st).stream;
    BuildsNothing(st, st1, filled);
    var end := ReadElementEnd(flags, h, st, |elements| - 1).stream;
    v := ArrayValue(elements);
    if Peek(st1.rest) == ',' as int {
      var st2 := Skipped(flags, Took(st1)).stream;
      BuildsNothing(st, st2, filled);
      if flags.trailingCommas && Peek(st2.rest) == ']' as int {
        CloseArray(h, Took(st2), stack, elements, |elements|);
      } else {
        v := ElementsBuild(flags, h, st2, stack, elements);
      }
      BuildsThen(st, st2, end, filled, filled, stack + [v]);
    } else {
      CloseArray(h, Took(st1), stack, elements, |elements|);
      BuildsThen(st, st1, end, filled, filled, stack + [v]);
    }
  }

  /** A successful parse, by either parser, leaves exactly one value: the assertion in `ParseStream`. */
  lemma ParseBuildsOneValue(flags: Flags, h: Handler, text: Text) returns (v: Value)
    requires Read(flags, h, text).Ok? || ReadIteratively(flags, h, text).Ok?
    ensures Read(flags, h, text) == ReadIteratively(flags, h, text)
    ensures HandleAll([], Read(flags, h, text).stream.events) == Some([v])
  {
    JsonAgreement.ParsersAgree(flags, h, text);
    var st := Skipped(flags, Stream(text, [])).stream;
    v := ValueBuilds(flags, h, st, []);
    var events := ReadValue(flags, h, st).stream.events;
    assert events[0..] == events && [] + [v] == [v];
  }

  lemma SameSuccess(flags: Flags, h: Handler, text: Text)
    ensures Read(flags, h, text).Ok? <==> ReadIteratively(flags, h, text).Ok?
    ensures Read(flags, h, text).Ok? ==> Read(flags, h, text) == ReadIteratively(flags, h, text)
  {
    JsonAgreement.ParsersAgree(flags, h, text);
  }
}
