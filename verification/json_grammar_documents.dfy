/** A text is parsed exactly if it is a document of the grammar, and then to the meaning of that document. */
module JsonGrammarDocuments {
  import opened JsonText
  import opened JsonReader
  import opened JsonGrammar
  import opened JsonGrammarGaps
  import opened JsonGrammarTokens
  import opened JsonGrammarTrees
  import opened JsonGrammarReading
  import opened JsonParseStream
  import opened Wrappers
  import D = JsonDocument
  import JsonAgreement
  import JsonRoundTrip

  /// ## The value that is built

  lemma {:induction false} TreeBuilds(flags: Flags, stack: seq<D.Value>, t: Tree)
    requires ValidTree(flags, t)
    ensures D.HandleAll(stack, TreeEvents(flags, t)) == Some(stack + [TreeValue(flags, t)])
    decreases t, 1
  {
    match t
    case ObjectTree(members, _, _) =>
      MembersBuild(flags, stack + [D.ObjectValue([])], members);
      ObjectFolds(stack, MembersEvents(flags, members), MembersValue(flags, members));
      MembersCount(flags, members);
    case ArrayTree(items, _, _) =>
      ItemsBuild(flags, stack + [D.ArrayValue([])], items);
      ArrayFolds(stack, ItemsEvents(flags, items), ItemsValue(flags, items));
      ItemsCount(flags, items);
    case NumberTree(n) =>
      NumberBuilds(n);
      D.HandleOne(stack, TreeEvents(flags, t)[0]);
    case _ =>
      D.HandleOne(stack, TreeEvents(flags, t)[0]);
  }

  lemma NumberBuilds(n: Numeral)
    requires ValidNumeral(n)
    ensures D.NumValue(NumeralEvent(n)) == NumeralValue(n)
  {
  }

  lemma {:induction false} MembersCount(flags: Flags, members: seq<MemberTree>)
    requires ValidMembers(flags, members)
    ensures |MembersValue(flags, members)| == |members|
  {
    if members != [] {
      MembersCount(flags, members[1..]);
    }
  }

  lemma {:induction false} ItemsCount(flags: Flags, items: seq<Item>)
    requires ValidItems(flags, items)
    ensures |ItemsValue(flags, items)| == |items|
  {
    if items != [] {
      ItemsCount(flags, items[1..]);
    }
  }

  /** The members on top of an open object become its members. */
  lemma ObjectFolds(stack: seq<D.Value>, events: seq<Event>, members: seq<D.Member>)
    requires D.HandleAll(stack + [D.ObjectValue([])], events) == Some(stack + [D.ObjectValue([])] + D.Flat(members))
    ensures D.HandleAll(stack, [StartObject] + (events + [EndObject(|members|)]))
         == Some(stack + [D.ObjectValue(members)])
  {
    var open := stack + [D.ObjectValue([])];
    var filled := open + D.Flat(members);
    D.HandleOne(stack, StartObject);
    D.HandleAllAppend(open, events, [EndObject(|members|)]);
    D.HandleAllAppend(stack, [StartObject], events + [EndObject(|members|)]);
    D.HandleOne(filled, EndObject(|members|));
    assert filled[|stack| + 1..] == D.Flat(members) && filled[..|stack|] == stack;
    D.MembersOfFlat(members);
  }

  /** The values on top of an open array become its elements. */
  lemma ArrayFolds(stack: seq<D.Value>, events: seq<Event>, values: seq<D.Value>)
    requires D.HandleAll(stack + [D.ArrayValue([])], events) == Some(stack + [D.ArrayValue([])] + values)
    ensures D.HandleAll(stack, [StartArray] + (events + [EndArray(|values|)]))
         == Some(stack + [D.ArrayValue(values)])
  {
    var open := stack + [D.ArrayValue([])];
    var filled := open + values;
    D.HandleOne(stack, StartArray);
    D.HandleAllAppend(open, events, [EndArray(|values|)]);
    D.HandleAllAppend(stack, [StartArray], events + [EndArray(|values|)]);
    D.HandleOne(filled, EndArray(|values|));
    assert filled[|stack| + 1..] == values && filled[..|stack|] == stack;
  }

  lemma {:induction false} MembersBuild(flags: Flags, stack: seq<D.Value>, members: seq<MemberTree>)
    requires ValidMembers(flags, members)
    ensures D.HandleAll(stack, MembersEvents(flags, members)) == Some(stack + D.Flat(MembersValue(flags, members)))
    decreases members, 0
  {
    if members == [] {
      assert stack + D.Flat([]) == stack;
    } else {
      var name, value := CharsBytes(members[0].name), TreeValue(flags, members[0].value);
      var named := stack + [D.StringValue(name)];
      var more := MembersEvents(flags, members[1..]);
      D.HandleOne(stack, Key(name));
      TreeBuilds(flags, named, members[0].value);
      MembersBuild(flags, named + [value], members[1..]);
      D.HandleAllAppend(named, TreeEvents(flags, members[0].value), more);
      D.HandleAllAppend(stack, [Key(name)], TreeEvents(flags, members[0].value) + more);
      FlatMore(stack, D.Member(name, value), MembersValue(flags, members[1..]));
    }
  }

  lemma FlatMore(stack: seq<D.Value>, m: D.Member, members: seq<D.Member>)
    ensures stack + [D.StringValue(m.name)] + [m.value] + D.Flat(members) == stack + D.Flat([m] + members)
  {
    assert ([m] + members)[1..] == members;
  }

  lemma {:induction false} ItemsBuild(flags: Flags, stack: seq<D.Value>, items: seq<Item>)
    requires ValidItems(flags, items)
    ensures D.HandleAll(stack, ItemsEvents(flags, items)) == Some(stack + ItemsValue(flags, items))
    decreases items, 0
  {
    if items == [] {
      assert stack + [] == stack;
    } else {
      var value := TreeValue(flags, items[0].value);
      TreeBuilds(flags, stack, items[0].value);
      ItemsBuild(flags, stack + [value], items[1..]);
      D.HandleAllAppend(stack, TreeEvents(flags, items[0].value), ItemsEvents(flags, items[1..]));
      assert stack + [value] + ItemsValue(flags, items[1..]) == stack + ([value] + ItemsValue(flags, items[1..]));
    }
  }

  /// ## Documents

  /** The text is the document, up to its end or to a zero byte. */
  predicate IsDocument(flags: Flags, d: Document, text: Text, rest: Text) {
    ValidDocument(flags, d) && text == DocumentText(d) + rest && (rest == [] || rest[0] == 0)
  }

  lemma AfterTree(d: Document, rest: Text)
    ensures DocumentText(d) + rest
         == GapText(d.before) + (TreeText(d.tree) + (GapText(d.behind) + (LastText(d.last) + rest)))
  {
    var tail := GapText(d.behind) + LastText(d.last);
    Regrouped(GapText(d.behind), LastText(d.last), rest);
    Regrouped(TreeText(d.tree), tail, rest);
    Regrouped(GapText(d.before), TreeText(d.tree) + tail, rest);
  }

  lemma TailEndsNumeral(flags: Flags, d: Document, rest: Text)
    requires ValidDocument(flags, d) && (rest == [] || rest[0] == 0)
    ensures EndsNumeral(GapText(d.behind) + (LastText(d.last) + rest))
  {
    assert d.last == None ==> LastText(d.last) + rest == rest;
    GapEndsNumeral(flags, d.behind, LastText(d.last) + rest);
  }

  /** The parsers skip to the value and read it. */
  lemma ValueIsReadFirst(flags: Flags, before: Gap, t: Tree, rest: Text)
    requires ValidGap(flags, before) && ValidTree(flags, t) && (t.NumberTree? ==> EndsNumeral(rest))
    ensures var at := Stream(TreeText(t) + rest, []);
            && Skipped(flags, Stream(GapText(before) + at.rest, [])) == Ok(at) && Peek(at.rest) != 0
            && ReadValue(flags, JsonRoundTrip.WILLING, at) == Ok(Stream(rest, TreeEvents(flags, t)))
  {
    TreeBegins(flags, t, rest);
    SkipsGap(flags, before, TreeText(t) + rest, []);
    ValueIsRead(flags, t, rest, []);
    assert [] + TreeEvents(flags, t) == TreeEvents(flags, t);
  }

  lemma AgreedOn(flags: Flags, h: Handler, text: Text)
    ensures Read(flags, h, text).Ok? <==> ReadIteratively(flags, h, text).Ok?
    ensures Read(flags, h, text).Ok? ==> Read(flags, h, text) == ReadIteratively(flags, h, text)
  {
    JsonAgreement.ParsersAgree(flags, h, text);
  }

  /** Every document is read to its end by both parsers, which give its events. */
  lemma DocumentIsRead(flags: Flags, d: Document, text: Text, rest: Text)
    requires IsDocument(flags, d, text, rest) && !flags.stopWhenDone
    ensures Read(flags, JsonRoundTrip.WILLING, text) == Ok(Stream(rest, TreeEvents(flags, d.tree)))
    ensures ReadIteratively(flags, JsonRoundTrip.WILLING, text) == Ok(Stream(rest, TreeEvents(flags, d.tree)))
  {
    var tail := GapText(d.behind) + (LastText(d.last) + rest);
    AfterTree(d, rest);
    TailEndsNumeral(flags, d, rest);
    ValueIsReadFirst(flags, d.before, d.tree, tail);
    SkipsLast(flags, d.behind, d.last, rest, TreeEvents(flags, d.tree));
    AgreedOn(flags, JsonRoundTrip.WILLING, text);
  }

  /** If parsing stops behind the value, anything may follow it but what would belong to a number. */
  lemma FirstValueIsRead(flags: Flags, before: Gap, t: Tree, text: Text, rest: Text)
    requires flags.stopWhenDone && ValidGap(flags, before) && ValidTree(flags, t)
    requires text == GapText(before) + (TreeText(t) + rest) && (t.NumberTree? ==> EndsNumeral(rest))
    ensures Read(flags, JsonRoundTrip.WILLING, text) == Ok(Stream(rest, TreeEvents(flags, t)))
    ensures ReadIteratively(flags, JsonRoundTrip.WILLING, text) == Ok(Stream(rest, TreeEvents(flags, t)))
  {
    ValueIsReadFirst(flags, before, t, rest);
    AgreedOn(flags, JsonRoundTrip.WILLING, text);
  }

  /** Whatever either parser reads, with any handler, begins with a gap and a value. */
  lemma ReadIsTree(flags: Flags, h: Handler, text: Text) returns (before: Gap, t: Tree, tail: Stream)
    requires Read(flags, h, text).Ok?
    ensures ValidGap(flags, before) && ValidTree(flags, t) && tail.events == TreeEvents(flags, t)
    ensures text == GapText(before) + (TreeText(t) + tail.rest)
    ensures if flags.stopWhenDone then Read(flags, h, text) == Ok(tail)
            else
              && Skipped(flags, tail).Ok? && Peek(Skipped(flags, tail).stream.rest) == 0
              && Read(flags, h, text) == Skipped(flags, tail)
  {
    before := GapBefore(flags, Stream(text, []));
    var at := Skipped(flags, Stream(text, [])).stream;
    t := ValueIsTree(flags, h, at);
    tail := ReadValue(flags, h, at).stream;
    assert [] + TreeEvents(flags, t) == TreeEvents(flags, t);
  }

  /** Whatever either parser reads to its end, with any handler, is a document, and the handler has been
      given its events. */
  lemma ReadIsDocument(flags: Flags, h: Handler, text: Text) returns (d: Document)
    requires !flags.stopWhenDone && (Read(flags, h, text).Ok? || ReadIteratively(flags, h, text).Ok?)
    ensures Read(flags, h, text) == ReadIteratively(flags, h, text)
    ensures IsDocument(flags, d, text, Read(flags, h, text).stream.rest)
    ensures Read(flags, h, text).stream.events == TreeEvents(flags, d.tree)
  {
    AgreedOn(flags, h, text);
    var before, t, tail := ReadIsTree(flags, h, text);
    var behind, last := SkipIsGap(flags, tail.rest);
    d := Document(before, t, behind, last);
    AfterTree(d, Read(flags, h, text).stream.rest);
  }

  /** Both parsers accept exactly the documents: they read a text up to `rest`, giving these events, if and
      only if it is a document up to there that has these events. */
  lemma ParsesIff(flags: Flags, text: Text, rest: Text, events: seq<Event>)
    requires !flags.stopWhenDone
    ensures Read(flags, JsonRoundTrip.WILLING, text) == Ok(Stream(rest, events))
       <==> exists d :: IsDocument(flags, d, text, rest) && TreeEvents(flags, d.tree) == events
    ensures ReadIteratively(flags, JsonRoundTrip.WILLING, text) == Ok(Stream(rest, events))
       <==> exists d :: IsDocument(flags, d, text, rest) && TreeEvents(flags, d.tree) == events
  {
    AgreedOn(flags, JsonRoundTrip.WILLING, text);
    if Read(flags, JsonRoundTrip.WILLING, text) == Ok(Stream(rest, events)) {
      var d := ReadIsDocument(flags, JsonRoundTrip.WILLING, text);
      assert IsDocument(flags, d, text, rest) && TreeEvents(flags, d.tree) == events;
    }
    forall d | IsDocument(flags, d, text, rest) && TreeEvents(flags, d.tree) == events
      ensures Read(flags, JsonRoundTrip.WILLING, text) == Ok(Stream(rest, events))
    {
      DocumentIsRead(flags, d, text, rest);
    }
  }

  lemma BuiltIsValue(flags: Flags, t: Tree, v: D.Value)
    requires ValidTree(flags, t) && D.HandleAll([], TreeEvents(flags, t)) == Some([v])
    ensures v == TreeValue(flags, t)
  {
    TreeBuilds(flags, [], t);
    assert ([] + [TreeValue(flags, t)])[0] == [v][0];
  }

  /** What the writer prints for a double-free value is a document of the grammar, without comments and
      without a comma before a closing bracket, whose value this is. */
  lemma PrintedIsDocument(ascii: bool, v: D.Value) returns (d: Document)
    requires D.DoubleFree(v) && D.Printed(ascii, v).Some?
    ensures var plain := Flags(false, false, false);
            && ValidDocument(plain, d) && DocumentText(d) == D.Printed(ascii, v).value
            && TreeValue(plain, d.tree) == v
  {
    var plain := Flags(false, false, false);
    var text := D.Printed(ascii, v).value;
    JsonRoundTrip.ParsesPrinted(plain, ascii, v);
    d := ReadIsDocument(plain, JsonRoundTrip.WILLING, text);
    assert DocumentText(d) + [] == DocumentText(d);
    BuiltIsValue(plain, d.tree, v);
  }

  /** However a text is derived, it has one value, and this is what parsing it into a document gives; a text
      that cannot be derived is refused. */
  method ParseText(flags: Flags, iterative: bool, text: Text) returns (parsed: bool, v: D.Value)
    requires !flags.stopWhenDone
    ensures parsed <==> exists d, rest :: IsDocument(flags, d, text, rest)
    ensures forall d, rest :: IsDocument(flags, d, text, rest) ==> v == TreeValue(flags, d.tree)
  {
    var document := new GenericDocument();
    parsed := document.ParseStream(flags, iterative, text);
    v := document.root;
    if parsed {
      ghost var d := ReadIsDocument(flags, JsonRoundTrip.WILLING, text);
    }
    forall d, rest | IsDocument(flags, d, text, rest)
      ensures parsed && v == TreeValue(flags, d.tree)
    {
      DocumentIsRead(flags, d, text, rest);
      BuiltIsValue(flags, d.tree, v);
    }
  }
}
