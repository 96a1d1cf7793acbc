/** The reader with its stream, handler events, stack and parse result as state. */
module JsonParser {
  import opened JsonText
  import opened JsonNumbers
  import opened JsonStrings
  import opened JsonReader
  import opened Wrappers

  class GenericReader {
    const handler: Handler
    var input: Text                         // what is left of the stream
    var events: seq<Event>                  // what the handler has been given
    var stack: seq<Frame>                   // stack_, while parsing iteratively
    var parseResult: Option<ErrorCode>

    constructor (handler: Handler, text: Text)
      ensures this.handler == handler && Here() == Stream(text, []) && stack == [] && parseResult == None
    {
      this.handler, input, events, stack, parseResult := handler, text, [], [], None;
    }

    ghost function Here(): Stream
      reads this
    {
      Stream(input, events)
    }

    /** The reader has come to this outcome. */
    ghost predicate Reached(outcome: Outcome)
      reads this
    {
      match outcome
      case Ok(st) => parseResult == None && Here() == st
      case Error(code, evs) => parseResult == Some(code) && events == evs
    }

    method Emit(event: Event)
      requires parseResult == None
      modifies this
      ensures stack == old(stack) && Reached(JsonReader.Emit(handler, old(Here()), event))
    {
      events := events + [event];
      if !handler(events) { parseResult := Some(Termination); }
    }

    method Fail(code: ErrorCode)
      modifies this`parseResult
      ensures parseResult == Some(code)
    {
      parseResult := Some(code);
    }

    method Consume(wanted: Byte) returns (consumed: bool)
      requires wanted != 0
      modifies this`input
      ensures consumed <==> Peek(old(input)) == wanted
      ensures input == if consumed then old(input)[1..] else old(input)
    {
      consumed := Peek(input) == wanted;
      if consumed { input := input[1..]; }
    }

    /// ## Whitespace and comments

    method SkipSpaces()
      modifies this`input
      ensures input == SkipWhitespace(old(input))
    {
      while input != [] && IsSpace(input[0])
        invariant SkipWhitespace(input) == SkipWhitespace(old(input))
        decreases |input|
      {
        input := input[1..];
      }
    }

    method SkipBlock()
      requires parseResult == None
      modifies this`input, this`parseResult
      ensures match BlockEnd(old(input))
              case None => parseResult == Some(UnspecificSyntaxError)
              case Some(rest) => parseResult == None && input == rest
    {
      while true
        invariant parseResult == None && BlockEnd(input) == BlockEnd(old(input))
        decreases |input|
      {
        if Peek(input) == 0 {
          Fail(UnspecificSyntaxError);
          return;
        }
        var star := Consume('*' as int);
        if star {
          var slash := Consume('/' as int);
          if slash { return; }
        } else {
          input := input[1..];
        }
      }
    }

    method SkipLine()
      modifies this`input
      ensures input == LineEnd(old(input))
    {
      while Peek(input) != 0
        invariant LineEnd(input) == LineEnd(old(input))
        decreases |input|
      {
        var c := input[0];
        input := input[1..];
        if c == '\n' as int { return; }
      }
    }

    method SkipWhitespaceAndComments(flags: Flags)
      requires parseResult == None
      modifies this`input, this`parseResult
      ensures Reached(Skipped(flags, old(Here())))
    {
      SkipSpaces();
      if flags.comments {
        while Peek(input) == '/' as int
          invariant parseResult == None && input == SkipWhitespace(input)
          invariant Skip(flags, input) == Skip(flags, old(input))
          decreases |input|
        {
          input := input[1..];
          var block := Consume('*' as int);
          if block {
            SkipBlock();
            if parseResult != None { return; }
          } else {
            var line := Consume('/' as int);
            if !line {
              Fail(UnspecificSyntaxError);
              return;
            }
            SkipLine();
          }
          SkipSpaces();
        }
      }
    }

    /// ## Scalars

    /** `ParseNull`, `ParseTrue` and `ParseFalse`. */
    method ParseWord(word: string, event: Event)
      requires parseResult == None && input != []
      requires word != "" && forall i :: 0 <= i < |word| ==> 0 as char < word[i] < 256 as char
      modifies this
      ensures stack == old(stack)
      ensures match ReadWord(old(input), word, event)
              case Failed(code) => Reached(Error(code, old(events)))
              case Lexed(e, rest) => Reached(JsonReader.Emit(handler, Stream(rest, old(events)), e))
    {
      ghost var text := input;
      input := input[1..];
      for i := 1 to |word|
        invariant i <= |text| && input == text[i..] && events == old(events) && stack == old(stack)
        invariant parseResult == None
        invariant forall j :: 1 <= j < i ==> text[j] == word[j] as int
      {
        var consumed := Consume(word[i] as int);
        if !consumed {
          Fail(ValueInvalid);
          return;
        }
      }
      Emit(event);
    }

    method ParseString(isKey: bool)
      requires parseResult == None && Peek(input) == '\"' as int
      modifies this
      ensures stack == old(stack)
      ensures isKey ==> Reached(EmitKey(handler, old(Here())))
      ensures !isKey ==> Reached(EmitScalar(handler, old(Here())))
    {
      var s := ParseStringToStream(input[1..]);
      match s
      case Failed(code) => Fail(code);
      case Lexed(str, rest) =>
        input := rest;
        Emit(if isKey then Key(str) else String(str));
    }

    /** The cases of `ParseValue` that are not objects or arrays. */
    method ParseScalar()
      requires parseResult == None
      modifies this
      ensures stack == old(stack) && Reached(EmitScalar(handler, old(Here())))
    {
      var c := Peek(input);
      if c == 'n' as int {
        ParseWord("null", Null);
      } else if c == 't' as int {
        ParseWord("true", Bool(true));
      } else if c == 'f' as int {
        ParseWord("false", Bool(false));
      } else if c == '\"' as int {
        ParseString(false);
      } else {
        var number := ParseNumber(input);
        match number
        case Failed(code) => Fail(code);
        case Lexed(n, rest) =>
          input := rest;
          Emit(Numeric(n));
      }
    }

    /// ## Recursive descent

    method ParseValue(flags: Flags)
      requires parseResult == None
      modifies this
      ensures stack == old(stack) && Reached(ReadValue(flags, handler, old(Here())))
      decreases |input|, 1
    {
      if Peek(input) == '{' as int {
        ParseObject(flags);
      } else if Peek(input) == '[' as int {
        ParseArray(flags);
      } else {
        ParseScalar();
      }
    }

    /** The name of a member, and the colon behind it. */
    method ParseName(flags: Flags)
      requires parseResult == None
      modifies this
      ensures stack == old(stack) && Reached(ReadName(flags, handler, old(Here())))
    {
      if Peek(input) != '\"' as int { Fail(ObjectMissName); return; }
      ParseString(true);
      if parseResult != None { return; }
      SkipWhitespaceAndComments(flags);
      if parseResult != None { return; }
      var colon := Consume(':' as int);
      if !colon { Fail(ObjectMissColon); }
    }

    method ParseObject(flags: Flags)
      requires parseResult == None && Peek(input) == '{' as int
      modifies this
      ensures stack == old(stack) && Reached(ReadObject(flags, handler, old(Here())))
      decreases |input|, 0
    {
      ghost var goal := ReadObject(flags, handler, Here());
      ghost var size := |input|;
      input := input[1..];
      Emit(StartObject);
      if parseResult != None { return; }
      SkipWhitespaceAndComments(flags);
      if parseResult != None { return; }
      var empty := Consume('}' as int);
      if empty {
        Emit(EndObject(0));
        return;
      }
      var memberCount := 0;
      while true
        invariant parseResult == None && stack == old(stack) && |input| < size
        invariant goal == ReadMembers(flags, handler, Here(), memberCount)
        decreases |input|
      {
        ParseName(flags);
        if parseResult != None { return; }
        assert goal == ReadMemberValue(flags, handler, Here(), memberCount);
        SkipWhitespaceAndComments(flags);
        if parseResult != None { return; }
        ParseValue(flags);
        if parseResult != None { return; }
        assert goal == ReadMemberEnd(flags, handler, Here(), memberCount);
        SkipWhitespaceAndComments(flags);
        if parseResult != None { return; }
        memberCount := memberCount + 1;
        if Peek(input) == ',' as int {
          input := input[1..];
          SkipWhitespaceAndComments(flags);
          if parseResult != None { return; }
        } else if Peek(input) == '}' as int {
          input := input[1..];
          Emit(EndObject(memberCount));
          return;
        } else {
          Fail(ObjectMissCommaOrCurlyBracket);
          return;
        }
        if flags.trailingCommas && Peek(input) == '}' as int {
          EmitAndTake(EndObject(memberCount));
          return;
        }
      }
    }

    /** Calls the handler, and takes the bracket if the handler agrees. */
    method EmitAndTake(event: Event)
      requires parseResult == None && input != []
      modifies this
      ensures stack == old(stack) && Reached(JsonReader.Emit(handler, Took(old(Here())), event))
    {
      Emit(event);
      if parseResult == None { input := input[1..]; }
    }

    method ParseArray(flags: Flags)
      requires parseResult == None && Peek(input) == '[' as int
      modifies this
      ensures stack == old(stack) && Reached(ReadArray(flags, handler, old(Here())))
      decreases |input|, 0
    {
      ghost var goal := ReadArray(flags, handler, Here());
      ghost var size := |input|;
      input := input[1..];
      Emit(StartArray);
      if parseResult != None { return; }
      SkipWhitespaceAndComments(flags);
      if parseResult != None { return; }
      var empty := Consume(']' as int);
      if empty {
        Emit(EndArray(0));
        return;
      }
      var elementCount := 0;
      while true
        invariant parseResult == None && stack == old(stack) && |input| < size
        invariant goal == ReadElements(flags, handler, Here(), elementCount)
        decreases |input|
      {
        ParseValue(flags);
        if parseResult != None { return; }
        elementCount := elementCount + 1;
        SkipWhitespaceAndComments(flags);
        if parseResult != None { return; }
        var comma := Consume(',' as int);
        if comma {
          SkipWhitespaceAndComments(flags);
          if parseResult != None { return; }
        } else {
          var close := Consume(']' as int);
          if close {
            Emit(EndArray(elementCount));
          } else {
            Fail(ArrayMissCommaOrSquareBracket);
          }
          return;
        }
        if flags.trailingCommas && Peek(input) == ']' as int {
          EmitAndTake(EndArray(elementCount));
          return;
        }
      }
    }

    /** `Parse` without the flag for iterative parsing. */
    method ParseRecursively(flags: Flags)
      requires parseResult == None && events == []
      modifies this
      ensures Reached(Read(flags, handler, old(input)))
    {
      SkipWhitespaceAndComments(flags);
      if parseResult != None { return; }
      if Peek(input) == 0 { Fail(DocumentEmpty); return; }
      ParseValue(flags);
      if parseResult != None || flags.stopWhenDone { return; }
      SkipWhitespaceAndComments(flags);
      if parseResult != None { return; }
      if Peek(input) != 0 { Fail(DocumentRootNotSingular); }
    }

    /// ## Iterative parsing

    /** `Transit`: the state arrived at, or the error state, with or without an error. */
    method Transit(flags: Flags, src: State, dst: State) returns (state: State)
      requires parseResult == None && CanTransit(Machine(src, stack, Here()), dst)
      modifies this
      ensures match JsonReader.Transit(flags, handler, old(Machine(src, stack, Here())), dst)
              case To(m) => state == m.state && stack == m.stack && Here() == m.stream && parseResult == None
              case Fails(code, evs) => state == ErrorState && events == evs && parseResult == code
    {
      state := dst;
      match dst {
        case ErrorState => return;
        case ObjectInitial | ArrayInitial =>
          var n := src;
          if src == ArrayInitial || src == ElementDelimiter {
            n := Element;
          } else if src == KeyValueDelimiter {
            n := MemberValue;
          }
          stack := stack + [Frame(n, 0)];
          EmitAndTake(if dst == ObjectInitial then StartObject else StartArray);
        case MemberKey => ParseString(true);
        case KeyValueDelimiter => input := input[1..];
        case MemberValue | Element => ParseScalar();
        case MemberDelimiter | ElementDelimiter =>
          input := input[1..];
          var top := stack[|stack| - 1];
          stack := stack[|stack| - 1 := top.(count := top.count + 1)];
        case ObjectFinish | ArrayFinish => state := TransitClose(flags, src, dst);
        case _ =>
          ParseScalar();
          state := Finish;
      }
      if parseResult != None { state := ErrorState; }
    }

    method TransitClose(flags: Flags, src: State, dst: State) returns (state: State)
      requires parseResult == None && input != [] && stack != []
      modifies this
      ensures match JsonReader.TransitClose(flags, handler, old(Machine(src, stack, Here())), dst)
              case To(m) => state == m.state && stack == m.stack && Here() == m.stream && parseResult == None
              case Fails(code, evs) => events == evs && parseResult == code && code.Some?
    {
      state := Finish;
      if !flags.trailingCommas && src == (if dst == ObjectFinish then MemberDelimiter else ElementDelimiter) {
        Fail(if dst == ObjectFinish then ObjectMissName else ValueInvalid);
        return;
      }
      var top := stack[|stack| - 1];
      stack := stack[..|stack| - 1];
      var c := top.count;
      if src == (if dst == ObjectFinish then MemberValue else Element) { c := c + 1; }
      if top.state != Start { state := top.state; }
      EmitAndTake(if dst == ObjectFinish then EndObject(c) else EndArray(c));
    }

    /** `Parse` with the flag for iterative parsing. */
    method ParseIteratively(flags: Flags)
      requires parseResult == None && events == [] && stack == []
      modifies this
      ensures Reached(ReadIteratively(flags, handler, old(input)))
    {
      ghost var goal := ReadIteratively(flags, handler, input);
      var state := Start;
      SkipWhitespaceAndComments(flags);
      if parseResult != None { return; }
      while Peek(input) != 0
        invariant parseResult == None
        invariant Valid(Machine(state, stack, Here())) && goal == Loop(flags, handler, Machine(state, stack, Here()))
        decreases |input|
      {
        ghost var m := Machine(state, stack, Here());
        var n := Predict(state, Tokenize(input[0]));
        TransitKeeps(flags, handler, m);
        var d := Transit(flags, state, n);
        if d == ErrorState {
          if parseResult == None { Fail(HandleError(state)); }
          return;
        }
        state := d;
        if flags.stopWhenDone && state == Finish { return; }
        SkipWhitespaceAndComments(flags);
        if parseResult != None { return; }
      }
      if state != Finish { Fail(HandleError(state)); }
    }
  }
}
