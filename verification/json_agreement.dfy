/** The two parsers agree: on every text, with every handler, they give the handler the same events
  and come to the same result. */
module JsonAgreement {
  import opened JsonText
  import opened JsonNumbers
  import opened JsonReader

  /** The machine goes on behind something that recursive descent reads as a whole. */
  function Continue(flags: Flags, h: Handler, outcome: Outcome, state: State, stack: seq<Frame>): Outcome
    requires outcome.Ok? ==> Valid(Machine(state, stack, outcome.stream))
  {
    match outcome
    case Error(_, _) => outcome
    case Ok(st) => Resume(flags, h, Machine(state, stack, st))
  }

  /** The state to return to when an object or array closes. */
  function Returned(n: State): State {
    if n == Start then Finish else n
  }

  function ValueTarget(state: State): State {
    match state
    case Start => Finish
    case KeyValueDelimiter => MemberValue
    case _ => Element
  }

  predicate ExpectsValue(state: State) {
    state.Start? || state.ArrayInitial? || state.ElementDelimiter? || state.KeyValueDelimiter?
  }

  /// ## Single turns

  lemma ResumeSkips(flags: Flags, h: Handler, m: Machine)
    requires Valid(m) && m.state != Finish
    ensures Resume(flags, h, m)
            == if Skipped(flags, m.stream).Ok? then Loop(flags, h, m.(stream := Skipped(flags, m.stream).stream))
               else Skipped(flags, m.stream)
  {
  }

  lemma NoNumber(text: Text)
    requires !DigitAt(text, 0) && Peek(text) != '-' as int
    ensures ReadNumber(text) == Failed(ValueInvalid)
  {
  }

  lemma ValidBelow(m: Machine, below: seq<Frame>, top: Frame, st: Stream)
    requires Valid(m) && m.stack == below + [top]
    ensures Valid(Machine(Returned(top.state), below, st))
  {
    assert m.stack[|below|] == top;
    forall i | 0 <= i < |below|
      ensures if i == 0 then below[i].state.Start? else below[i].state.Element? || below[i].state.MemberValue?
    {
      assert below[i] == m.stack[i];
    }
  }

  /** No value begins here. */
  lemma LoopNoValue(flags: Flags, h: Handler, m: Machine)
    requires Valid(m) && ExpectsValue(m.state) && m.state != Start
    requires !IsScalarToken(Tokenize(Peek(m.stream.rest))) || Peek(m.stream.rest) == 0
    requires Peek(m.stream.rest) != '{' as int && Peek(m.stream.rest) != '[' as int
    requires Peek(m.stream.rest) == ']' as int ==>
               m.state == KeyValueDelimiter || (m.state == ElementDelimiter && !flags.trailingCommas)
    ensures Loop(flags, h, m) == Error(ValueInvalid, m.stream.events)
    ensures ReadValue(flags, h, m.stream) == Error(ValueInvalid, m.stream.events)
  {
    NoNumber(m.stream.rest);
  }

  lemma ScalarPredicted(m: Machine)
    requires ExpectsValue(m.state) && Peek(m.stream.rest) != 0 && IsScalarToken(Tokenize(Peek(m.stream.rest)))
    ensures Predict(m.state, Tokenize(m.stream.rest[0]))
         == if m.state == Start then SingleValue else ValueTarget(m.state)
  {
  }

  lemma ScalarRead(flags: Flags, h: Handler, st: Stream)
    requires Peek(st.rest) != 0 && IsScalarToken(Tokenize(Peek(st.rest)))
    ensures ReadValue(flags, h, st) == EmitScalar(h, st)
  {
  }

  lemma LoopScalar(flags: Flags, h: Handler, m: Machine)
    requires Valid(m) && ExpectsValue(m.state)
    requires Peek(m.stream.rest) != 0 && IsScalarToken(Tokenize(Peek(m.stream.rest)))
    ensures Loop(flags, h, m) == Continue(flags, h, ReadValue(flags, h, m.stream), ValueTarget(m.state), m.stack)
  {
    ScalarPredicted(m);
    ScalarRead(flags, h, m.stream);
  }

  lemma LoopOpen(flags: Flags, h: Handler, m: Machine, dst: State)
    requires Valid(m) && ExpectsValue(m.state)
    requires dst == if Peek(m.stream.rest) == '{' as int then ObjectInitial else ArrayInitial
    requires Peek(m.stream.rest) == '{' as int || Peek(m.stream.rest) == '[' as int
    ensures var n := if m.state == Start then Start else ValueTarget(m.state);
            var event := if dst == ObjectInitial then StartObject else StartArray;
            Loop(flags, h, m) == Continue(flags, h, Emit(h, Took(m.stream), event), dst, m.stack + [Frame(n, 0)])
  {
  }

  lemma LoopKey(flags: Flags, h: Handler, m: Machine)
    requires Valid(m) && (m.state == ObjectInitial || m.state == MemberDelimiter)
    requires Peek(m.stream.rest) != '}' as int || (m.state == MemberDelimiter && !flags.trailingCommas)
    ensures Loop(flags, h, m)
            == if Peek(m.stream.rest) != '\"' as int then Error(ObjectMissName, m.stream.events)
               else Continue(flags, h, EmitKey(h, m.stream), MemberKey, m.stack)
  {
  }

  lemma LoopColon(flags: Flags, h: Handler, m: Machine)
    requires Valid(m) && m.state == MemberKey
    ensures Loop(flags, h, m)
            == if Peek(m.stream.rest) != ':' as int then Error(ObjectMissColon, m.stream.events)
               else Resume(flags, h, Machine(KeyValueDelimiter, m.stack, Took(m.stream)))
  {
  }

  /** A comma behind a member or element. */
  lemma LoopComma(flags: Flags, h: Handler, m: Machine, below: seq<Frame>, top: Frame, next: Machine)
    requires Valid(m) && m.stack == below + [top]
    requires m.state == MemberValue || m.state == Element
    requires Peek(m.stream.rest) == ',' as int
    requires next.state == if m.state == MemberValue then MemberDelimiter else ElementDelimiter
    requires next.stack == below + [top.(count := top.count + 1)] && next.stream == Took(m.stream)
    ensures Valid(next) && Loop(flags, h, m) == Resume(flags, h, next)
  {
    assert m.stack[|m.stack| - 1 := top.(count := top.count + 1)] == next.stack;
    forall i | 0 <= i < |next.stack| ensures next.stack[i].state == m.stack[i].state {
    }
  }

  lemma CloseTransit(flags: Flags, h: Handler, m: Machine, dst: State, below: seq<Frame>, top: Frame)
    requires m.stream.rest != [] && m.stack == below + [top]
    requires flags.trailingCommas || m.state != (if dst == ObjectFinish then MemberDelimiter else ElementDelimiter)
    ensures var counted := m.state == if dst == ObjectFinish then MemberValue else Element;
            var count := if counted then top.count + 1 else top.count;
            TransitClose(flags, h, m, dst)
            == Arrive(Emit(h, Took(m.stream), if dst == ObjectFinish then EndObject(count) else EndArray(count)),
                      Returned(top.state), below)
  {
    assert m.stack[..|m.stack| - 1] == below && m.stack[|m.stack| - 1] == top;
  }

  /** Anything else behind a member or element. */
  lemma LoopLast(flags: Flags, h: Handler, m: Machine, below: seq<Frame>, top: Frame)
    requires Valid(m) && m.stack == below + [top]
    requires m.state == MemberValue || m.state == Element
    requires Peek(m.stream.rest) != ',' as int
    ensures Valid(Machine(Returned(top.state), below, m.stream))
    ensures var inObject := m.state == MemberValue;
            Loop(flags, h, m)
            == if Peek(m.stream.rest) == (if inObject then '}' as int else ']' as int) then
                 Continue(flags, h,
                          Emit(h, Took(m.stream),
                               if inObject then EndObject(top.count + 1) else EndArray(top.count + 1)),
                          Returned(top.state), below)
               else Error(if inObject then ObjectMissCommaOrCurlyBracket
                          else ArrayMissCommaOrSquareBracket, m.stream.events)
  {
    ValidBelow(m, below, top, m.stream);
    if m.stream.rest != [] {
      CloseTransit(flags, h, m, if m.state == MemberValue then ObjectFinish else ArrayFinish, below, top);
    }
  }

  /** An empty object, or a trailing comma where it is allowed. */
  lemma LoopCloseObject(flags: Flags, h: Handler, m: Machine, below: seq<Frame>, top: Frame)
    requires Valid(m) && m.stack == below + [top]
    requires m.state == ObjectInitial || (flags.trailingCommas && m.state == MemberDelimiter)
    requires Peek(m.stream.rest) == '}' as int
    ensures Valid(Machine(Returned(top.state), below, m.stream))
    ensures Loop(flags, h, m)
            == Continue(flags, h, Emit(h, Took(m.stream), EndObject(top.count)), Returned(top.state), below)
  {
    ValidBelow(m, below, top, m.stream);
    CloseTransit(flags, h, m, ObjectFinish, below, top);
  }

  /** An empty array, or a trailing comma where it is allowed. */
  lemma LoopCloseArray(flags: Flags, h: Handler, m: Machine, below: seq<Frame>, top: Frame)
    requires Valid(m) && m.stack == below + [top]
    requires m.state == ArrayInitial || (flags.trailingCommas && m.state == ElementDelimiter)
    requires Peek(m.stream.rest) == ']' as int
    ensures Valid(Machine(Returned(top.state), below, m.stream))
    ensures Loop(flags, h, m)
            == Continue(flags, h, Emit(h, Took(m.stream), EndArray(top.count)), Returned(top.state), below)
  {
    ValidBelow(m, below, top, m.stream);
    CloseTransit(flags, h, m, ArrayFinish, below, top);
  }

  /// ## Whole values

  /** Which machines are about to read a value. At the beginning, only what begins one is left to it. */
  predicate BeforeValue(flags: Flags, m: Machine) {
    var c := Peek(m.stream.rest);
    && Valid(m) && ExpectsValue(m.state)
    && (m.state.Start? ==> c != 0 && c != ']' as int && c != '}' as int && c != ',' as int && c != ':' as int)
    && (c == ']' as int && !m.state.KeyValueDelimiter? ==> m.state.ElementDelimiter? && !flags.trailingCommas)
  }

  /** From there, the machine reads what recursive descent reads, and then goes on. */
  lemma {:induction false} ValueSimulated(flags: Flags, h: Handler, m: Machine)
    requires BeforeValue(flags, m)
    ensures Loop(flags, h, m) == Continue(flags, h, ReadValue(flags, h, m.stream), ValueTarget(m.state), m.stack)
    decreases |m.stream.rest|, 2
  {
    var c := Peek(m.stream.rest);
    if c == '{' as int {
      LoopOpen(flags, h, m, ObjectInitial);
      ObjectSimulated(flags, h, m);
    } else if c == '[' as int {
      LoopOpen(flags, h, m, ArrayInitial);
      ArraySimulated(flags, h, m);
    } else if c != 0 && IsScalarToken(Tokenize(c)) {
      LoopScalar(flags, h, m);
    } else {
      LoopNoValue(flags, h, m);
    }
  }

  /** The frame that an object or array in the place of a value pushes. */
  function Opened(m: Machine): Frame {
    Frame(if m.state == Start then Start else ValueTarget(m.state), 0)
  }

  lemma {:induction false} ObjectSimulated(flags: Flags, h: Handler, m: Machine)
    requires BeforeValue(flags, m) && Peek(m.stream.rest) == '{' as int
    requires Loop(flags, h, m) == Continue(flags, h, Emit(h, Took(m.stream), StartObject), ObjectInitial,
                                           m.stack + [Opened(m)])
    ensures Loop(flags, h, m) == Continue(flags, h, ReadObject(flags, h, m.stream), ValueTarget(m.state), m.stack)
    decreases |m.stream.rest|, 1
  {
    var start := Emit(h, Took(m.stream), StartObject);
    if start.Ok? {
      var m1 := Machine(ObjectInitial, m.stack + [Opened(m)], start.stream);
      ResumeSkips(flags, h, m1);
      var skipped := Skipped(flags, start.stream);
      if skipped.Ok? {
        var m2 := m1.(stream := skipped.stream);
        if Peek(m2.stream.rest) == '}' as int {
          LoopCloseObject(flags, h, m2, m.stack, Opened(m));
        } else {
          MembersSimulated(flags, h, m2, m.stack, Opened(m));
        }
      }
    }
  }

  /** Members, from behind the opening bracket or a comma on. */
  lemma {:induction false} MembersSimulated(flags: Flags, h: Handler, m: Machine, below: seq<Frame>, top: Frame)
    requires Valid(m) && m.stack == below + [top] && (m.state == ObjectInitial || m.state == MemberDelimiter)
    requires Peek(m.stream.rest) != '}' as int || (m.state == MemberDelimiter && !flags.trailingCommas)
    ensures Valid(Machine(Returned(top.state), below, m.stream))
    ensures Loop(flags, h, m)
            == Continue(flags, h, ReadMembers(flags, h, m.stream, top.count), Returned(top.state), below)
    decreases |m.stream.rest|, 0
  {
    ValidBelow(m, below, top, m.stream);
    LoopKey(flags, h, m);
    if Peek(m.stream.rest) == '\"' as int {
      var key := EmitKey(h, m.stream);
      if key.Ok? {
        ResumeSkips(flags, h, Machine(MemberKey, m.stack, key.stream));
        var skipped := Skipped(flags, key.stream);
        if skipped.Ok? {
          LoopColon(flags, h, Machine(MemberKey, m.stack, skipped.stream));
          if Peek(skipped.stream.rest) == ':' as int {
            MemberValueSimulated(flags, h, Machine(KeyValueDelimiter, m.stack, Took(skipped.stream)), below, top);
          }
        }
      }
    }
  }

  lemma {:induction false} MemberValueSimulated(flags: Flags, h: Handler, m: Machine, below: seq<Frame>, top: Frame)
    requires Valid(m) && m.stack == below + [top] && m.state == KeyValueDelimiter
    ensures Valid(Machine(Returned(top.state), below, m.stream))
    ensures Resume(flags, h, m)
            == Continue(flags, h, ReadMemberValue(flags, h, m.stream, top.count), Returned(top.state), below)
    decreases |m.stream.rest|, 3
  {
    ValidBelow(m, below, top, m.stream);
    ResumeSkips(flags, h, m);
    var skipped := Skipped(flags, m.stream);
    if skipped.Ok? {
      ValueSimulated(flags, h, m.(stream := skipped.stream));
      var value := ReadValue(flags, h, skipped.stream);
      if value.Ok? {
        MemberEndSimulated(flags, h, Machine(MemberValue, m.stack, value.stream), below, top);
      }
    }
  }

  lemma {:induction false} MemberEndSimulated(flags: Flags, h: Handler, m: Machine, below: seq<Frame>, top: Frame)
    requires Valid(m) && m.stack == below + [top] && m.state == MemberValue
    ensures Valid(Machine(Returned(top.state), below, m.stream))
    ensures Resume(flags, h, m)
            == Continue(flags, h, ReadMemberEnd(flags, h, m.stream, top.count), Returned(top.state), below)
    decreases |m.stream.rest|, 3
  {
    ValidBelow(m, below, top, m.stream);
    ResumeSkips(flags, h, m);
    var skipped := Skipped(flags, m.stream);
    if skipped.Ok? {
      var m1 := m.(stream := skipped.stream);
      if Peek(m1.stream.rest) == ',' as int {
        var top' := top.(count := top.count + 1);
        var m2 := Machine(MemberDelimiter, below + [top'], Took(m1.stream));
        LoopComma(flags, h, m1, below, top, m2);
        ResumeSkips(flags, h, m2);
        var skipped' := Skipped(flags, m2.stream);
        if skipped'.Ok? {
          var m3 := m2.(stream := skipped'.stream);
          if flags.trailingCommas && Peek(m3.stream.rest) == '}' as int {
            LoopCloseObject(flags, h, m3, below, top');
          } else {
            MembersSimulated(flags, h, m3, below, top');
          }
        }
      } else {
        LoopLast(flags, h, m1, below, top);
      }
    }
  }

  lemma {:induction false} ArraySimulated(flags: Flags, h: Handler, m: Machine)
    requires BeforeValue(flags, m) && Peek(m.stream.rest) == '[' as int
    requires Loop(flags, h, m) == Continue(flags, h, Emit(h, Took(m.stream), StartArray), ArrayInitial,
                                           m.stack + [Opened(m)])
    ensures Loop(flags, h, m) == Continue(flags, h, ReadArray(flags, h, m.stream), ValueTarget(m.state), m.stack)
    decreases |m.stream.rest|, 1
  {
    var start := Emit(h, Took(m.stream), StartArray);
    if start.Ok? {
      var m1 := Machine(ArrayInitial, m.stack + [Opened(m)], start.stream);
      ResumeSkips(flags, h, m1);
      var skipped := Skipped(flags, start.stream);
      if skipped.Ok? {
        var m2 := m1.(stream := skipped.stream);
        if Peek(m2.stream.rest) == ']' as int {
          LoopCloseArray(flags, h, m2, m.stack, Opened(m));
        } else {
          ElementsSimulated(flags, h, m2, m.stack, Opened(m));
        }
      }
    }
  }

  /** Elements, from behind the opening bracket or a comma on. */
  lemma {:induction false} ElementsSimulated(flags: Flags, h: Handler, m: Machine, below: seq<Frame>, top: Frame)
    requires Valid(m) && m.stack == below + [top] && (m.state == ArrayInitial || m.state == ElementDelimiter)
    requires Peek(m.stream.rest) != ']' as int || (m.state == ElementDelimiter && !flags.trailingCommas)
    ensures Valid(Machine(Returned(top.state), below, m.stream))
    ensures Loop(flags, h, m)
            == Continue(flags, h, ReadElements(flags, h, m.stream, top.count), Returned(top.state), below)
    decreases |m.stream.rest|, 3
  {
    ValidBelow(m, below, top, m.stream);
    ValueSimulated(flags, h, m);
    var value := ReadValue(flags, h, m.stream);
    if value.Ok? {
      ElementEndSimulated(flags, h, Machine(Element, m.stack, value.stream), below, top);
    }
  }

  lemma {:induction false} ElementEndSimulated(flags: Flags, h: Handler, m: Machine, below: seq<Frame>, top: Frame)
    requires Valid(m) && m.stack == below + [top] && m.state == Element
    ensures Valid(Machine(Returned(top.state), below, m.stream))
    ensures Resume(flags, h, m)
            == Continue(flags, h, ReadElementEnd(flags, h, m.stream, top.count), Returned(top.state), below)
    decreases |m.stream.rest|, 4
  {
    ValidBelow(m, below, top, m.stream);
    ResumeSkips(flags, h, m);
    var skipped := Skipped(flags, m.stream);
    if skipped.Ok? {
      var m1 := m.(stream := skipped.stream);
      if Peek(m1.stream.rest) == ',' as int {
        var top' := top.(count := top.count + 1);
        var m2 := Machine(ElementDelimiter, below + [top'], Took(m1.stream));
        LoopComma(flags, h, m1, below, top, m2);
        ResumeSkips(flags, h, m2);
        var skipped' := Skipped(flags, m2.stream);
        if skipped'.Ok? {
          var m3 := m2.(stream := skipped'.stream);
          if flags.trailingCommas && Peek(m3.stream.rest) == ']' as int {
            LoopCloseArray(flags, h, m3, below, top');
          } else {
            ElementsSimulated(flags, h, m3, below, top');
          }
        }
      } else {
        LoopLast(flags, h, m1, below, top);
      }
    }
  }

  /// ## Documents

  /** The document begins with one of the delimiters. */
  predicate BeginsWithDelimiter(flags: Flags, text: Text) {
    Skip(flags, text).Some?
    && var c := Peek(Skip(flags, text).value);
       c == ',' as int || c == ':' as int || c == ']' as int || c == '}' as int
  }

  lemma DocumentEnd(flags: Flags, h: Handler, st: Stream)
    ensures Resume(flags, h, Machine(Finish, [], st))
            == if flags.stopWhenDone then Ok(st)
               else match Skipped(flags, st)
                    case Error(_, _) => Skipped(flags, st)
                    case Ok(st') => if Peek(st'.rest) != 0 then Error(DocumentRootNotSingular, st'.events) else Ok(st')
  {
  }

  /** The parsers agree in everything on every document, except that a delimiter at its beginning is an
      invalid value to the one and an empty document to the other. */
  lemma ParsersAgree(flags: Flags, h: Handler, text: Text)
    ensures if BeginsWithDelimiter(flags, text) then
              && Read(flags, h, text) == Error(ValueInvalid, [])
              && ReadIteratively(flags, h, text) == Error(DocumentEmpty, [])
            else Read(flags, h, text) == ReadIteratively(flags, h, text)
  {
    var skipped := Skipped(flags, Stream(text, []));
    if skipped.Ok? {
      var m := Machine(Start, [], skipped.stream);
      if BeginsWithDelimiter(flags, text) {
        NoNumber(m.stream.rest);
      } else if Peek(m.stream.rest) != 0 {
        ValueSimulated(flags, h, m);
        var value := ReadValue(flags, h, m.stream);
        if value.Ok? {
          DocumentEnd(flags, h, value.stream);
        }
      }
    }
  }
}
