/** The two parsers of the reader as functions: recursive descent, and a table with a stack. */
module JsonReader {
  import opened JsonText
  import opened JsonNumbers
  import opened JsonStrings
  import opened Wrappers

  datatype Flags = Flags(comments: bool, trailingCommas: bool, stopWhenDone: bool)

  datatype Event =
    | Null
    | Bool(b: bool)
    | Numeric(number: Number)
    | String(s: Text)
    | Key(s: Text)
    | StartObject
    | EndObject(memberCount: nat)
    | StartArray
    | EndArray(elementCount: nat)

  /** A handler decides, after every event, whether parsing goes on. It may depend on all events so far. */
  type Handler = seq<Event> -> bool

  /** The stream behind what has been read, and the events that the handler has been given. */
  datatype Stream = Stream(rest: Text, events: seq<Event>)

  datatype Outcome = Ok(stream: Stream) | Error(code: ErrorCode, events: seq<Event>) {
    predicate IsFailure() { Error? }

    function PropagateFailure(): Outcome
      requires IsFailure()
    {
      this
    }

    function Extract(): Stream
      requires !IsFailure()
    {
      stream
    }
  }

  /// ## What both parsers use

  predicate IsSpace(c: Byte) {
    c == ' ' as int || c == '\n' as int || c == '\r' as int || c == '\t' as int
  }

  function SkipWhitespace(text: Text): (rest: Text)
    ensures |rest| <= |text| && (rest == [] || !IsSpace(rest[0]))
  {
    if text != [] && IsSpace(text[0]) then SkipWhitespace(text[1..]) else text
  }

  /** Behind the end of a block comment. */
  function BlockEnd(text: Text): (rest: Option<Text>)
    ensures rest.Some? ==> |rest.value| < |text|
  {
    if Peek(text) == 0 then None
    else if text[0] == '*' as int then
      if Peek(text[1..]) == '/' as int then Some(text[2..]) else BlockEnd(text[1..])
    else BlockEnd(text[1..])
  }

  /** Behind the end of a line. */
  function LineEnd(text: Text): (rest: Text)
    ensures |rest| <= |text|
  {
    if Peek(text) == 0 then text
    else if text[0] == '\n' as int then text[1..]
    else LineEnd(text[1..])
  }

  /** Whitespace, and comments if they are allowed. Fails on a malformed comment. */
  function Skip(flags: Flags, text: Text): (rest: Option<Text>)
    ensures rest.Some? ==> |rest.value| <= |text|
    decreases |text|
  {
    var text := SkipWhitespace(text);
    if !flags.comments || Peek(text) != '/' as int then Some(text)
    else if Peek(text[1..]) == '*' as int then
      match BlockEnd(text[2..])
      case None => None
      case Some(rest) => Skip(flags, rest)
    else if Peek(text[1..]) == '/' as int then Skip(flags, LineEnd(text[2..]))
    else None
  }

  function Skipped(flags: Flags, st: Stream): (outcome: Outcome)
    ensures outcome.Ok? ==> |outcome.stream.rest| <= |st.rest| && outcome.stream.events == st.events
  {
    match Skip(flags, st.rest)
    case None => Error(UnspecificSyntaxError, st.events)
    case Some(rest) => Ok(Stream(rest, st.events))
  }

  function Emit(h: Handler, st: Stream, event: Event): (outcome: Outcome)
    ensures outcome.Ok? ==> outcome.stream.rest == st.rest
  {
    var events := st.events + [event];
    if h(events) then Ok(Stream(st.rest, events)) else Error(Termination, events)
  }

  function Took(st: Stream): Stream
    requires st.rest != []
  {
    st.(rest := st.rest[1..])
  }

  /** The rest of a word whose first letter has been seen. */
  function ReadWord(text: Text, word: string, event: Event): (lexed: Lexed<Event>)
    requires text != [] && word != "" && forall i :: 0 <= i < |word| ==> word[i] < 256 as char
    ensures lexed.Lexed? ==> |lexed.rest| < |text|
  {
    if |text| >= |word| && forall i :: 1 <= i < |word| ==> text[i] == word[i] as int
    then Lexed(event, text[|word|..])
    else Failed(ValueInvalid)
  }

  /** A value that is neither an object nor an array. */
  function ReadScalar(text: Text): (lexed: Lexed<Event>)
    ensures lexed.Lexed? ==> |lexed.rest| < |text|
  {
    var c := Peek(text);
    if c == 'n' as int then ReadWord(text, "null", Null)
    else if c == 't' as int then ReadWord(text, "true", Bool(true))
    else if c == 'f' as int then ReadWord(text, "false", Bool(false))
    else if c == '\"' as int then
      match ReadString(text[1..])
      case Failed(code) => Failed(code)
      case Lexed(s, rest) => Lexed(String(s), rest)
    else
      match ReadNumber(text)
      case Failed(code) => Failed(code)
      case Lexed(number, rest) => Lexed(Numeric(number), rest)
  }

  function EmitScalar(h: Handler, st: Stream): (outcome: Outcome)
    ensures outcome.Ok? ==> |outcome.stream.rest| < |st.rest|
  {
    match ReadScalar(st.rest)
    case Failed(code) => Error(code, st.events)
    case Lexed(event, rest) => Emit(h, st.(rest := rest), event)
  }

  function EmitKey(h: Handler, st: Stream): (outcome: Outcome)
    requires Peek(st.rest) == '\"' as int
    ensures outcome.Ok? ==> |outcome.stream.rest| < |st.rest|
  {
    match ReadString(st.rest[1..])
    case Failed(code) => Error(code, st.events)
    case Lexed(s, rest) => Emit(h, st.(rest := rest), Key(s))
  }

  /// ## Recursive descent

  function ReadValue(flags: Flags, h: Handler, st: Stream): (outcome: Outcome)
    ensures outcome.Ok? ==> |outcome.stream.rest| < |st.rest|
    decreases |st.rest|, 2
  {
    if Peek(st.rest) == '{' as int then ReadObject(flags, h, st)
    else if Peek(st.rest) == '[' as int then ReadArray(flags, h, st)
    else EmitScalar(h, st)
  }

  function ReadObject(flags: Flags, h: Handler, st: Stream): (outcome: Outcome)
    requires Peek(st.rest) == '{' as int
    ensures outcome.Ok? ==> |outcome.stream.rest| < |st.rest|
    decreases |st.rest|, 1
  {
    var st :- Emit(h, Took(st), StartObject);
    var st :- Skipped(flags, st);
    if Peek(st.rest) == '}' as int then Emit(h, Took(st), EndObject(0))
    else ReadMembers(flags, h, st, 0)
  }

  /** The name of a member, and the colon. */
  function ReadName(flags: Flags, h: Handler, st: Stream): (outcome: Outcome)
    ensures outcome.Ok? ==> |outcome.stream.rest| < |st.rest|
  {
    if Peek(st.rest) != '\"' as int then Error(ObjectMissName, st.events)
    else
      var st :- EmitKey(h, st);
      var st :- Skipped(flags, st);
      if Peek(st.rest) != ':' as int then Error(ObjectMissColon, st.events) else Ok(Took(st))
  }

  /** One more member, and what follows it; `count` members have been read. */
  function ReadMembers(flags: Flags, h: Handler, st: Stream, count: nat): (outcome: Outcome)
    ensures outcome.Ok? ==> |outcome.stream.rest| < |st.rest|
    decreases |st.rest|, 0
  {
    var st :- ReadName(flags, h, st);
    ReadMemberValue(flags, h, st, count)
  }

  /** From behind the colon on. */
  function ReadMemberValue(flags: Flags, h: Handler, st: Stream, count: nat): (outcome: Outcome)
    ensures outcome.Ok? ==> |outcome.stream.rest| < |st.rest|
    decreases |st.rest|, 3
  {
    var st :- Skipped(flags, st);
    var st :- ReadValue(flags, h, st);
    ReadMemberEnd(flags, h, st, count)
  }

  /** From behind the value of a member on. */
  function ReadMemberEnd(flags: Flags, h: Handler, st: Stream, count: nat): (outcome: Outcome)
    ensures outcome.Ok? ==> |outcome.stream.rest| < |st.rest|
    decreases |st.rest|, 3
  {
    var st :- Skipped(flags, st);
    if Peek(st.rest) == ',' as int then
      var st :- Skipped(flags, Took(st));
      if flags.trailingCommas && Peek(st.rest) == '}' as int then Emit(h, Took(st), EndObject(count + 1))
      else ReadMembers(flags, h, st, count + 1)
    else if Peek(st.rest) == '}' as int then Emit(h, Took(st), EndObject(count + 1))
    else Error(ObjectMissCommaOrCurlyBracket, st.events)
  }

  function ReadArray(flags: Flags, h: Handler, st: Stream): (outcome: Outcome)
    requires Peek(st.rest) == '[' as int
    ensures outcome.Ok? ==> |outcome.stream.rest| < |st.rest|
    decreases |st.rest|, 1
  {
    var st :- Emit(h, Took(st), StartArray);
    var st :- Skipped(flags, st);
    if Peek(st.rest) == ']' as int then Emit(h, Took(st), EndArray(0))
    else ReadElements(flags, h, st, 0)
  }

  /** One more element, and what follows it; `count` elements have been read. */
  function ReadElements(flags: Flags, h: Handler, st: Stream, count: nat): (outcome: Outcome)
    ensures outcome.Ok? ==> |outcome.stream.rest| < |st.rest|
    decreases |st.rest|, 3
  {
    var st :- ReadValue(flags, h, st);
    ReadElementEnd(flags, h, st, count)
  }

  /** From behind an element on. */
  function ReadElementEnd(flags: Flags, h: Handler, st: Stream, count: nat): (outcome: Outcome)
    ensures outcome.Ok? ==> |outcome.stream.rest| < |st.rest|
    decreases |st.rest|, 4
  {
    var st :- Skipped(flags, st);
    if Peek(st.rest) == ',' as int then
      var st :- Skipped(flags, Took(st));
      if flags.trailingCommas && Peek(st.rest) == ']' as int then Emit(h, Took(st), EndArray(count + 1))
      else ReadElements(flags, h, st, count + 1)
    else if Peek(st.rest) == ']' as int then Emit(h, Took(st), EndArray(count + 1))
    else Error(ArrayMissCommaOrSquareBracket, st.events)
  }

  /** A document: one value, and nothing behind it unless parsing stops there. */
  function Read(flags: Flags, h: Handler, text: Text): Outcome {
    var st :- Skipped(flags, Stream(text, []));
    if Peek(st.rest) == 0 then Error(DocumentEmpty, st.events)
    else
      var st :- ReadValue(flags, h, st);
      if flags.stopWhenDone then Ok(st)
      else
        var st :- Skipped(flags, st);
        if Peek(st.rest) != 0 then Error(DocumentRootNotSingular, st.events) else Ok(st)
  }

  /// ## The pushdown machine

  datatype State =
    | Finish
    | ErrorState
    | Start
    | ObjectInitial
    | MemberKey
    | MemberValue
    | ObjectFinish
    | ArrayInitial
    | Element
    | ArrayFinish
    | SingleValue
    | ElementDelimiter
    | MemberDelimiter
    | KeyValueDelimiter

  datatype Token =
    | LeftBracket
    | RightBracket
    | LeftCurlyBracket
    | RightCurlyBracket
    | Comma
    | Colon
    | StringToken
    | FalseToken
    | TrueToken
    | NullToken
    | NumberToken

  function Tokenize(c: Byte): Token {
    if c == '[' as int then LeftBracket
    else if c == ']' as int then RightBracket
    else if c == '{' as int then LeftCurlyBracket
    else if c == '}' as int then RightCurlyBracket
    else if c == ',' as int then Comma
    else if c == ':' as int then Colon
    else if c == '\"' as int then StringToken
    else if c == 'f' as int then FalseToken
    else if c == 't' as int then TrueToken
    else if c == 'n' as int then NullToken
    else NumberToken
  }

  predicate IsScalarToken(token: Token) {
    token.StringToken? || token.FalseToken? || token.TrueToken? || token.NullToken? || token.NumberToken?
  }

  /** The rows of the table in which a value may come next: where it leads for a scalar. */
  function PredictValue(scalar: State, token: Token): State {
    match token
    case LeftBracket => ArrayInitial
    case LeftCurlyBracket => ObjectInitial
    case _ => if IsScalarToken(token) then scalar else ErrorState
  }

  function Predict(state: State, token: Token): State {
    match state
    case Start => PredictValue(SingleValue, token)
    case ObjectInitial | MemberDelimiter =>
      if token == RightCurlyBracket then ObjectFinish else if token == StringToken then MemberKey else ErrorState
    case MemberKey => if token == Colon then KeyValueDelimiter else ErrorState
    case MemberValue =>
      if token == RightCurlyBracket then ObjectFinish else if token == Comma then MemberDelimiter else ErrorState
    case ArrayInitial | ElementDelimiter =>
      if token == RightBracket then ArrayFinish else PredictValue(Element, token)
    case Element =>
      if token == RightBracket then ArrayFinish else if token == Comma then ElementDelimiter else ErrorState
    case KeyValueDelimiter => PredictValue(MemberValue, token)
    case _ => ErrorState
  }

  /** What is pushed for an object or an array: the state to return to, and how many members or
      elements are complete. */
  datatype Frame = Frame(state: State, count: nat)

  datatype Machine = Machine(state: State, stack: seq<Frame>, stream: Stream)

  /** Where a transition leads; a transition that fails may leave its error to `HandleError`. */
  datatype Transition = To(machine: Machine) | Fails(code: Option<ErrorCode>, events: seq<Event>)

  function Arrive(outcome: Outcome, state: State, stack: seq<Frame>): Transition {
    match outcome
    case Ok(st) => To(Machine(state, stack, st))
    case Error(code, events) => Fails(Some(code), events)
  }

  /** The handler is called before the bracket is taken. */
  function EmitThenTake(h: Handler, st: Stream, event: Event): (outcome: Outcome)
    requires st.rest != []
    ensures outcome == Emit(h, Took(st), event)
  {
    match Emit(h, st, event)
    case Error(code, events) => Error(code, events)
    case Ok(st') => Ok(Took(st'))
  }

  function TransitOpen(h: Handler, m: Machine, dst: State): Transition
    requires m.stream.rest != []
  {
    var n := if m.state == ArrayInitial || m.state == ElementDelimiter then Element
             else if m.state == KeyValueDelimiter then MemberValue
             else m.state;
    Arrive(EmitThenTake(h, m.stream, if dst == ObjectInitial then StartObject else StartArray), dst,
           m.stack + [Frame(n, 0)])
  }

  function TransitClose(flags: Flags, h: Handler, m: Machine, dst: State): Transition
    requires m.stream.rest != [] && m.stack != []
  {
    var delimiter := if dst == ObjectFinish then MemberDelimiter else ElementDelimiter;
    if !flags.trailingCommas && m.state == delimiter then
      Fails(Some(if dst == ObjectFinish then ObjectMissName else ValueInvalid), m.stream.events)
    else
      var top := m.stack[|m.stack| - 1];
      var last := if dst == ObjectFinish then MemberValue else Element;
      var c := if m.state == last then top.count + 1 else top.count;
      var n := if top.state == Start then Finish else top.state;
      Arrive(EmitThenTake(h, m.stream, if dst == ObjectFinish then EndObject(c) else EndArray(c)),
             n, m.stack[..|m.stack| - 1])
  }

  /** The stack is never popped below its bottom: only an open object or array leads to its end. */
  predicate CanTransit(m: Machine, dst: State) {
    && m.stream.rest != []
    && (dst == ObjectFinish || dst == ArrayFinish || dst == MemberDelimiter || dst == ElementDelimiter
        ==> m.stack != [])
    && (dst == MemberKey ==> m.stream.rest[0] == '\"' as int)
  }

  function Transit(flags: Flags, h: Handler, m: Machine, dst: State): Transition
    requires CanTransit(m, dst)
  {
    match dst
    case ErrorState => Fails(None, m.stream.events)
    case ObjectInitial | ArrayInitial => TransitOpen(h, m, dst)
    case MemberKey => Arrive(EmitKey(h, m.stream), dst, m.stack)
    case KeyValueDelimiter => To(Machine(dst, m.stack, Took(m.stream)))
    case MemberValue | Element => Arrive(EmitScalar(h, m.stream), dst, m.stack)
    case MemberDelimiter | ElementDelimiter =>
      var top := m.stack[|m.stack| - 1];
      To(Machine(dst, m.stack[|m.stack| - 1 := top.(count := top.count + 1)], Took(m.stream)))
    case ObjectFinish | ArrayFinish => TransitClose(flags, h, m, dst)
    case _ => Arrive(EmitScalar(h, m.stream), Finish, m.stack)
  }

  function HandleError(state: State): ErrorCode {
    match state
    case Start => DocumentEmpty
    case Finish => DocumentRootNotSingular
    case ObjectInitial | MemberDelimiter => ObjectMissName
    case MemberKey => ObjectMissColon
    case MemberValue => ObjectMissCommaOrCurlyBracket
    case KeyValueDelimiter | ArrayInitial | ElementDelimiter => ValueInvalid
    case _ => ArrayMissCommaOrSquareBracket
  }

  /** The states between two turns, and what is on the stack in them. */
  predicate Valid(m: Machine) {
    && (m.state.Start? || m.state.Finish? <==> m.stack == [])
    && !m.state.ErrorState? && !m.state.ObjectFinish? && !m.state.ArrayFinish? && !m.state.SingleValue?
    && forall i :: 0 <= i < |m.stack| ==>
         if i == 0 then m.stack[i].state.Start? else m.stack[i].state.Element? || m.stack[i].state.MemberValue?
  }

  lemma PredictedCanTransit(m: Machine)
    requires Valid(m) && Peek(m.stream.rest) != 0
    ensures CanTransit(m, Predict(m.state, Tokenize(m.stream.rest[0])))
  {
  }

  lemma CloseKeeps(flags: Flags, h: Handler, m: Machine, dst: State)
    requires Valid(m) && CanTransit(m, dst) && (dst == ObjectFinish || dst == ArrayFinish)
    ensures var t := Transit(flags, h, m, dst);
            t.To? ==> Valid(t.machine) && |t.machine.stream.rest| < |m.stream.rest|
  {
  }

  lemma OtherKeeps(flags: Flags, h: Handler, m: Machine, dst: State)
    requires Valid(m) && CanTransit(m, dst) && Peek(m.stream.rest) != 0
    requires dst == Predict(m.state, Tokenize(m.stream.rest[0])) && dst != ObjectFinish && dst != ArrayFinish
    ensures var t := Transit(flags, h, m, dst);
            t.To? ==> Valid(t.machine) && |t.machine.stream.rest| < |m.stream.rest|
  {
  }

  lemma TransitKeeps(flags: Flags, h: Handler, m: Machine)
    requires Valid(m) && Peek(m.stream.rest) != 0
    ensures CanTransit(m, Predict(m.state, Tokenize(m.stream.rest[0])))
    ensures var t := Transit(flags, h, m, Predict(m.state, Tokenize(m.stream.rest[0])));
            t.To? ==> Valid(t.machine) && |t.machine.stream.rest| < |m.stream.rest|
  {
    PredictedCanTransit(m);
    var dst := Predict(m.state, Tokenize(m.stream.rest[0]));
    if dst == ObjectFinish || dst == ArrayFinish {
      CloseKeeps(flags, h, m, dst);
    } else {
      OtherKeeps(flags, h, m, dst);
    }
  }

  /** One turn of the iterative loop, and the turns after it. */
  function Loop(flags: Flags, h: Handler, m: Machine): Outcome
    requires Valid(m)
    decreases |m.stream.rest|, 0
  {
    if Peek(m.stream.rest) == 0 then
      if m.state == Finish then Ok(m.stream) else Error(HandleError(m.state), m.stream.events)
    else
      TransitKeeps(flags, h, m);
      match Transit(flags, h, m, Predict(m.state, Tokenize(m.stream.rest[0])))
      case To(m') => Resume(flags, h, m')
      case Fails(code, events) => Error(if code.Some? then code.value else HandleError(m.state), events)
  }

  /** Behind a transition. */
  function Resume(flags: Flags, h: Handler, m: Machine): Outcome
    requires Valid(m)
    decreases |m.stream.rest|, 1
  {
    if flags.stopWhenDone && m.state == Finish then Ok(m.stream)
    else
      match Skip(flags, m.stream.rest)
      case None => Error(UnspecificSyntaxError, m.stream.events)
      case Some(rest) => Loop(flags, h, m.(stream := Stream(rest, m.stream.events)))
  }

  function ReadIteratively(flags: Flags, h: Handler, text: Text): Outcome {
    var st :- Skipped(flags, Stream(text, []));
    Loop(flags, h, Machine(Start, [], st))
  }
}
