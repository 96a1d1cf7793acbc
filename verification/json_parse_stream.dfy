/** A document with its handler methods, and parsing a text into it. */
module JsonParseStream {
  import opened JsonText
  import opened JsonReader
  import opened JsonDocument
  import opened JsonParser
  import opened JsonWriter
  import JsonRoundTrip
  import JsonBuilding
  import opened Wrappers

  class GenericDocument {
    var root: Value
    var stack: seq<Value>

    constructor ()
      ensures root == NullValue && stack == []
    {
      root, stack := NullValue, [];
    }

    method Push(v: Value)
      modifies this`stack
      ensures stack == old(stack) + [v]
    {
      stack := stack + [v];
    }

    /** Pops the names and values of the members, and fills the object that is on top then. */
    method EndObject(memberCount: nat)
      requires Handle(stack, Event.EndObject(memberCount)).Some?
      modifies this`stack
      ensures Some(stack) == Handle(old(stack), Event.EndObject(memberCount))
    {
      var members := stack[|stack| - 2 * memberCount..];
      stack := stack[..|stack| - 2 * memberCount];
      stack := stack[|stack| - 1 := ObjectValue(Members(members).value)];
      assert stack == old(stack)[..|stack| - 1] + [ObjectValue(Members(members).value)];
    }

    method EndArray(elementCount: nat)
      requires Handle(stack, Event.EndArray(elementCount)).Some?
      modifies this`stack
      ensures Some(stack) == Handle(old(stack), Event.EndArray(elementCount))
    {
      var elements := stack[|stack| - elementCount..];
      stack := stack[..|stack| - elementCount];
      stack := stack[|stack| - 1 := ArrayValue(elements)];
      assert stack == old(stack)[..|stack| - 1] + [ArrayValue(elements)];
    }

    /** The handler methods, one for each event. */
    method On(event: Event)
      requires Handle(stack, event).Some?
      modifies this`stack
      ensures Some(stack) == Handle(old(stack), event)
    {
      match event
      case Null => Push(NullValue);
      case Bool(b) => Push(BoolValue(b));
      case Numeric(n) => Push(NumberValue(NumValue(n)));
      case String(s) => Push(StringValue(s));
      case Key(s) => Push(StringValue(s));
      case StartObject => Push(ObjectValue([]));
      case StartArray => Push(ArrayValue([]));
      case EndObject(count) => EndObject(count);
      case EndArray(count) => EndArray(count);
    }

    method OnAll(events: seq<Event>)
      requires HandleAll(stack, events).Some?
      modifies this`stack
      ensures Some(stack) == HandleAll(old(stack), events)
    {
      for i := 0 to |events|
        invariant HandleAll(stack, events[i..]) == HandleAll(old(stack), events)
      {
        assert events[i..][1..] == events[i + 1..];
        On(events[i]);
      }
    }

    /** Parses a text; on success the one value that the handlers have built becomes the document. */
    method ParseStream(flags: Flags, iterative: bool, text: Text) returns (parsed: bool)
      requires stack == []
      modifies this
      ensures parsed <==> Read(flags, JsonRoundTrip.WILLING, text).Ok?
      ensures parsed ==> stack == []
      ensures parsed ==> HandleAll([], Read(flags, JsonRoundTrip.WILLING, text).stream.events) == Some([root])
      ensures !parsed ==> root == old(root)
    {
      var reader := new GenericReader(JsonRoundTrip.WILLING, text);
      if iterative {
        reader.ParseIteratively(flags);
      } else {
        reader.ParseRecursively(flags);
      }
      JsonBuilding.SameSuccess(flags, JsonRoundTrip.WILLING, text);
      parsed := reader.parseResult == None;
      if parsed {
        ghost var v := JsonBuilding.ParseBuildsOneValue(flags, JsonRoundTrip.WILLING, text);
        OnAll(reader.events);
        assert |stack| == 1;
        root := stack[0];
        stack := [];
      }
    }
  }

  /** A double-free value that can be written comes back equal, with either parser and any flags. */
  method WriteAndParse(ascii: bool, v: Value, flags: Flags, iterative: bool) returns (written: bool, copy: Value)
    requires DoubleFree(v)
    ensures written <==> Printed(ascii, v).Some?
    ensures written ==> copy == v
  {
    copy := NullValue;
    var writer := new Writer(ascii);
    written := Accept(v, writer);
    if written {
      assert writer.output == Printed(ascii, v).value;
      JsonRoundTrip.ParsesPrinted(flags, ascii, v);
      var document := new GenericDocument();
      var parsed := document.ParseStream(flags, iterative, writer.output);
      copy := document.root;
      assert [copy] == [v];
    }
  }
}
