/** Both parsers read every text of the grammar with the meaning that the grammar gives it. */
module JsonGrammarTrees {
  import opened JsonText
  import opened JsonReader
  import opened JsonStrings
  import opened JsonRoundTrip
  import opened JsonGrammar
  import opened JsonGrammarGaps
  import opened JsonGrammarTokens
  import opened Wrappers
  import N = JsonNumbers

  /// ## Scalars

  /** What a value begins with. */
  predicate BeginsTree(text: Text) {
    text != [] && (text[0] in {0x6E, 0x74, 0x66, 0x22, 0x7B, 0x5B, 0x2D} || 0x30 <= text[0] <= 0x39)
  }

  lemma TreeBegins(flags: Flags, t: Tree, rest: Text)
    requires ValidTree(flags, t)
    ensures BeginsTree(TreeText(t) + rest)
    ensures t.NumberTree? ==> (TreeText(t) + rest)[0] == 0x2D || 0x30 <= (TreeText(t) + rest)[0] <= 0x39
  {
    if t.NumberTree? {
      var n := t.numeral;
      NumeralSplit(n, rest);
      NumberBegins(n.minus, n.integer, FractionText(n.fraction) + (ExponentText(n.exponent) + rest));
    }
  }

  lemma NumberBegins(minus: bool, integer: Text, tail: Text)
    requires Digits(integer)
    ensures var text := (if minus then [0x2D] else []) + (integer + tail);
            text != [] && (text[0] == 0x2D || 0x30 <= text[0] <= 0x39)
  {
    assert (integer + tail)[0] == integer[0];
    assert [] + (integer + tail) == integer + tail;
  }

  lemma WordIsRead(t: Tree, word: string, event: Event, rest: Text)
    requires word != "" && |TreeText(t)| == |word| && forall i :: 0 <= i < |word| ==> word[i] < 256 as char
    requires forall i :: 0 <= i < |word| ==> TreeText(t)[i] == word[i] as int
    ensures ReadWord(TreeText(t) + rest, word, event) == Lexed(event, rest)
  {
    CutAt(TreeText(t), rest);
  }

  lemma QuotedIsRead(cs: seq<Char>, rest: Text)
    requires ValidChars(cs)
    ensures ReadString((CharsText(cs) + [0x22]) + rest) == Lexed(CharsBytes(cs), rest)
  {
    Regrouped(CharsText(cs), [0x22], rest);
    CharsAreRead(cs, rest);
  }

  lemma StringIsRead(cs: seq<Char>, rest: Text)
    requires ValidChars(cs)
    ensures ReadScalar(TreeText(StringTree(cs)) + rest) == Lexed(String(CharsBytes(cs)), rest)
  {
    QuotedIsRead(cs, rest);
    Regrouped([0x22], CharsText(cs) + [0x22], rest);
    CutAt([0x22], (CharsText(cs) + [0x22]) + rest);
  }

  lemma ScalarIsRead(flags: Flags, t: Tree, rest: Text)
    requires ValidTree(flags, t) && !t.ObjectTree? && !t.ArrayTree? && (t.NumberTree? ==> EndsNumeral(rest))
    ensures ReadScalar(TreeText(t) + rest) == Lexed(TreeEvents(flags, t)[0], rest)
  {
    match t
    case NullTree => WordIsRead(t, "null", Null, rest);
    case TrueTree => WordIsRead(t, "true", Bool(true), rest);
    case FalseTree => WordIsRead(t, "false", Bool(false), rest);
    case StringTree(cs) => StringIsRead(cs, rest);
    case NumberTree(n) =>
      TreeBegins(flags, t, rest);
      NumberIsRead(n, rest);
  }

  /// ## Arrays

  /** The text of the items, and what follows the array. */
  function ItemsOn(items: seq<Item>, comma: bool, gap: Gap, rest: Text): Text
    decreases |items|, 2
  {
    if items == [] then GapText(gap) + ([0x5D] + rest)
    else GapText(items[0].before) + ItemsAt(items, comma, gap, rest)
  }

  /** From the value of the first item on. */
  function ItemsAt(items: seq<Item>, comma: bool, gap: Gap, rest: Text): Text
    requires items != []
    decreases |items|, 1
  {
    TreeText(items[0].value) + (GapText(items[0].behind) + ItemsNext(items, comma, gap, rest))
  }

  /** From behind the first item on. */
  function ItemsNext(items: seq<Item>, comma: bool, gap: Gap, rest: Text): Text
    requires items != []
    decreases |items|, 0
  {
    if |items| == 1 && !comma then [0x5D] + rest else [0x2C] + ItemsOn(items[1..], comma, gap, rest)
  }

  lemma {:induction false} ItemsOnIs(items: seq<Item>, comma: bool, gap: Gap, rest: Text)
    ensures ItemTexts(items, comma, gap) + rest == ItemsOn(items, comma, gap, rest)
    decreases |items|
  {
    if items == [] {
      Regrouped(GapText(gap), [0x5D], rest);
    } else {
      var next := if |items| == 1 && !comma then [0x5D] else [0x2C] + ItemTexts(items[1..], comma, gap);
      if !(|items| == 1 && !comma) {
        ItemsOnIs(items[1..], comma, gap, rest);
        Regrouped([0x2C], ItemTexts(items[1..], comma, gap), rest);
      }
      assert next + rest == ItemsNext(items, comma, gap, rest);
      Regrouped(GapText(items[0].behind), next, rest);
      Regrouped(TreeText(items[0].value), GapText(items[0].behind) + next, rest);
      Regrouped(GapText(items[0].before), TreeText(items[0].value) + (GapText(items[0].behind) + next), rest);
    }
  }

  /** Nothing of a gap can belong to a number. */
  lemma GapEndsNumeral(flags: Flags, gap: Gap, rest: Text)
    requires ValidGap(flags, gap) && EndsNumeral(rest)
    ensures EndsNumeral(GapText(gap) + rest)
  {
    if gap != [] {
      assert ValidPiece(flags, gap[0]);
      assert (GapText(gap) + rest)[0] == PieceText(gap[0])[0];
    } else {
      assert [] + rest == rest;
    }
  }

  lemma ItemsNextBegins(items: seq<Item>, comma: bool, gap: Gap, rest: Text)
    requires items != []
    ensures var next := ItemsNext(items, comma, gap, rest);
            next != [] && next[0] == (if |items| == 1 && !comma then 0x5D else 0x2C) && Stops(next) && EndsNumeral(next)
    ensures var next := ItemsNext(items, comma, gap, rest);
            next[1..] == if |items| == 1 && !comma then rest else ItemsOn(items[1..], comma, gap, rest)
  {
  }

  /** From the gap behind an opening bracket, or a comma, on. */
  function ItemsFrom(items: seq<Item>, comma: bool, gap: Gap, rest: Text): Text {
    if items == [] then [0x5D] + rest else ItemsAt(items, comma, gap, rest)
  }

  lemma SkipsToItem(flags: Flags, items: seq<Item>, comma: bool, gap: Gap, rest: Text, events: seq<Event>)
    requires ValidItems(flags, items) && ValidGap(flags, gap)
    ensures var at := ItemsFrom(items, comma, gap, rest);
            && Skipped(flags, Stream(ItemsOn(items, comma, gap, rest), events)) == Ok(Stream(at, events))
            && (if items == [] then Peek(at) == 0x5D else BeginsTree(at))
  {
    if items == [] {
      SkipsGap(flags, gap, [0x5D] + rest, events);
    } else {
      TreeBegins(flags, items[0].value, GapText(items[0].behind) + ItemsNext(items, comma, gap, rest));
      SkipsGap(flags, items[0].before, ItemsAt(items, comma, gap, rest), events);
    }
  }

  lemma ArrayOpens(flags: Flags, behind: Text, at: Text, before: seq<Event>)
    requires Skipped(flags, Stream(behind, before + [StartArray])) == Ok(Stream(at, before + [StartArray]))
    ensures ReadValue(flags, WILLING, Stream([0x5B] + behind, before))
         == if Peek(at) == 0x5D then Ok(Stream(at[1..], before + [StartArray] + [EndArray(0)]))
            else ReadElements(flags, WILLING, Stream(at, before + [StartArray]), 0)
  {
    CutAt([0x5B], behind);
  }

  lemma ArrayCloses(flags: Flags, text: Text, rest: Text, events: seq<Event>, count: nat)
    requires Skipped(flags, Stream(text, events)) == Ok(Stream([0x5D] + rest, events))
    ensures ReadElementEnd(flags, WILLING, Stream(text, events), count) == After(rest, events, [EndArray(count + 1)])
  {
    CutAt([0x5D], rest);
  }

  lemma ArrayGoesOn(flags: Flags, text: Text, behind: Text, at: Text, events: seq<Event>, count: nat)
    requires Skipped(flags, Stream(text, events)) == Ok(Stream([0x2C] + behind, events))
    requires Skipped(flags, Stream(behind, events)) == Ok(Stream(at, events))
    ensures ReadElementEnd(flags, WILLING, Stream(text, events), count)
         == if flags.trailingCommas && Peek(at) == 0x5D then After(at[1..], events, [EndArray(count + 1)])
            else ReadElements(flags, WILLING, Stream(at, events), count + 1)
  {
    CutAt([0x2C], behind);
  }

  lemma {:induction false} ItemsAreRead(flags: Flags, items: seq<Item>, comma: bool, gap: Gap, rest: Text,
                                        before: seq<Event>, count: nat)
    requires items != [] && ValidItems(flags, items) && ValidGap(flags, gap) && (comma ==> flags.trailingCommas)
    ensures ReadElements(flags, WILLING, Stream(ItemsAt(items, comma, gap, rest), before), count)
         == After(rest, before, ItemsEvents(flags, items) + [EndArray(count + |items|)])
    decreases items, 0
  {
    var item := items[0];
    var next := ItemsNext(items, comma, gap, rest);
    ItemsNextBegins(items, comma, gap, rest);
    GapEndsNumeral(flags, item.behind, next);
    ValueIsRead(flags, item.value, GapText(item.behind) + next, before);
    var events := before + TreeEvents(flags, item.value);
    ItemsEndIsRead(flags, items, comma, gap, rest, events, count);
    Joined(before, TreeEvents(flags, item.value), ItemsEvents(flags, items[1..]), [EndArray(count + |items|)]);
  }

  lemma {:induction false} ItemsEndIsRead(flags: Flags, items: seq<Item>, comma: bool, gap: Gap, rest: Text,
                                          events: seq<Event>, count: nat)
    requires items != [] && ValidItems(flags, items) && ValidGap(flags, gap) && (comma ==> flags.trailingCommas)
    ensures var text := GapText(items[0].behind) + ItemsNext(items, comma, gap, rest);
            ReadElementEnd(flags, WILLING, Stream(text, events), count)
            == After(rest, events, ItemsEvents(flags, items[1..]) + [EndArray(count + |items|)])
    decreases items, -1, 1
  {
    if |items| == 1 {
      LastItemEnds(flags, items, comma, gap, rest, events, count);
    } else {
      AnotherItem(flags, items, comma, gap, rest, events, count);
      MoreItemsEnd(flags, items, comma, gap, rest,
                   GapText(items[0].behind) + ItemsNext(items, comma, gap, rest), events, count);
    }
  }

  lemma {:induction false} MoreItemsEnd(flags: Flags, items: seq<Item>, comma: bool, gap: Gap, rest: Text,
                                        text: Text, events: seq<Event>, count: nat)
    requires |items| > 1 && ValidItems(flags, items) && ValidGap(flags, gap) && (comma ==> flags.trailingCommas)
    requires ReadElementEnd(flags, WILLING, Stream(text, events), count)
          == ReadElements(flags, WILLING, Stream(ItemsAt(items[1..], comma, gap, rest), events), count + 1)
    ensures ReadElementEnd(flags, WILLING, Stream(text, events), count)
         == After(rest, events, ItemsEvents(flags, items[1..]) + [EndArray(count + |items|)])
    decreases items, -1, 0
  {
    ItemsAreRead(flags, items[1..], comma, gap, rest, events, count + 1);
  }

  lemma AnotherItem(flags: Flags, items: seq<Item>, comma: bool, gap: Gap, rest: Text, events: seq<Event>, count: nat)
    requires |items| > 1 && ValidItems(flags, items) && ValidGap(flags, gap)
    ensures var text := GapText(items[0].behind) + ItemsNext(items, comma, gap, rest);
            ReadElementEnd(flags, WILLING, Stream(text, events), count)
            == ReadElements(flags, WILLING, Stream(ItemsAt(items[1..], comma, gap, rest), events), count + 1)
  {
    var text := GapText(items[0].behind) + ItemsNext(items, comma, gap, rest);
    var on, at := ItemsOn(items[1..], comma, gap, rest), ItemsAt(items[1..], comma, gap, rest);
    ItemsNextBegins(items, comma, gap, rest);
    SkipsGap(flags, items[0].behind, ItemsNext(items, comma, gap, rest), events);
    SkipsToItem(flags, items[1..], comma, gap, rest, events);
    ArrayGoesOn(flags, text, on, at, events, count);
  }

  /** Behind the last item: the bracket, or a comma and the bracket. */
  lemma LastItemEnds(flags: Flags, items: seq<Item>, comma: bool, gap: Gap, rest: Text, events: seq<Event>, count: nat)
    requires |items| == 1 && ValidItems(flags, items) && ValidGap(flags, gap) && (comma ==> flags.trailingCommas)
    ensures var text := GapText(items[0].behind) + ItemsNext(items, comma, gap, rest);
            ReadElementEnd(flags, WILLING, Stream(text, events), count)
            == After(rest, events, ItemsEvents(flags, items[1..]) + [EndArray(count + |items|)])
  {
    var text := GapText(items[0].behind) + ItemsNext(items, comma, gap, rest);
    ItemsNextBegins(items, comma, gap, rest);
    SkipsGap(flags, items[0].behind, ItemsNext(items, comma, gap, rest), events);
    NoMore(EndArray(count + 1));
    if comma {
      SkipsToItem(flags, [], comma, gap, rest, events);
      ArrayGoesOn(flags, text, ItemsOn([], comma, gap, rest), [0x5D] + rest, events, count);
      CutAt([0x5D], rest);
    } else {
      ArrayCloses(flags, text, rest, events, count);
    }
  }

  lemma {:induction false} ArrayIsRead(flags: Flags, items: seq<Item>, comma: bool, gap: Gap, rest: Text,
                                       before: seq<Event>)
    requires ValidEnd(flags, |items|, comma, gap) && ValidItems(flags, items)
    ensures ReadValue(flags, WILLING, Stream([0x5B] + ItemsOn(items, comma, gap, rest), before))
         == After(rest, before + [StartArray], ItemsEvents(flags, items) + [EndArray(|items|)])
    decreases items, 1, 1
  {
    if items == [] {
      EmptyArrayIsRead(flags, comma, gap, rest, before);
    } else {
      ItemsInBrackets(flags, items, comma, gap, rest, before);
    }
  }

  lemma {:induction false} ItemsInBrackets(flags: Flags, items: seq<Item>, comma: bool, gap: Gap, rest: Text,
                                           before: seq<Event>)
    requires items != [] && ValidItems(flags, items) && ValidGap(flags, gap) && (comma ==> flags.trailingCommas)
    ensures ReadValue(flags, WILLING, Stream([0x5B] + ItemsOn(items, comma, gap, rest), before))
         == After(rest, before + [StartArray], ItemsEvents(flags, items) + [EndArray(|items|)])
    decreases items, 1, 0
  {
    FirstItem(flags, items, comma, gap, rest, before);
    ItemsAreRead(flags, items, comma, gap, rest, before + [StartArray], 0);
  }

  lemma EmptyArrayIsRead(flags: Flags, comma: bool, gap: Gap, rest: Text, before: seq<Event>)
    requires ValidGap(flags, gap)
    ensures ReadValue(flags, WILLING, Stream([0x5B] + ItemsOn([], comma, gap, rest), before))
         == After(rest, before + [StartArray], [] + [EndArray(0)])
  {
    SkipsToItem(flags, [], comma, gap, rest, before + [StartArray]);
    ArrayOpens(flags, ItemsOn([], comma, gap, rest), [0x5D] + rest, before);
    CutAt([0x5D], rest);
    NoMore(EndArray(0));
  }

  lemma FirstItem(flags: Flags, items: seq<Item>, comma: bool, gap: Gap, rest: Text, before: seq<Event>)
    requires items != [] && ValidItems(flags, items) && ValidGap(flags, gap)
    ensures ReadValue(flags, WILLING, Stream([0x5B] + ItemsOn(items, comma, gap, rest), before))
         == ReadElements(flags, WILLING, Stream(ItemsAt(items, comma, gap, rest), before + [StartArray]), 0)
  {
    SkipsToItem(flags, items, comma, gap, rest, before + [StartArray]);
    ArrayOpens(flags, ItemsOn(items, comma, gap, rest), ItemsAt(items, comma, gap, rest), before);
  }

  lemma NoMore(event: Event)
    ensures [] + [event] == [event]
  {
  }

  lemma EventsJoin(a: seq<Event>, b: seq<Event>, c: seq<Event>)
    ensures a + b + c == a + (b + c)
  {
  }

  /// ## Objects

  function MembersOn(members: seq<MemberTree>, comma: bool, gap: Gap, rest: Text): Text
    decreases |members|, 4
  {
    if members == [] then GapText(gap) + ([0x7D] + rest)
    else GapText(members[0].before) + MembersAt(members, comma, gap, rest)
  }

  /** From the name of the first member on. */
  function MembersAt(members: seq<MemberTree>, comma: bool, gap: Gap, rest: Text): Text
    requires members != []
    decreases |members|, 3
  {
    [0x22] + (CharsText(members[0].name) + ([0x22] + ColonAt(members, comma, gap, rest)))
  }

  /** From behind the name of the first member on. */
  function ColonAt(members: seq<MemberTree>, comma: bool, gap: Gap, rest: Text): Text
    requires members != []
    decreases |members|, 2
  {
    GapText(members[0].beforeColon) + ([0x3A] + (GapText(members[0].behindColon) + ValueAt(members, comma, gap, rest)))
  }

  /** From the value of the first member on. */
  function ValueAt(members: seq<MemberTree>, comma: bool, gap: Gap, rest: Text): Text
    requires members != []
    decreases |members|, 1
  {
    TreeText(members[0].value) + (GapText(members[0].behind) + MembersNext(members, comma, gap, rest))
  }

  /** From behind the first member on. */
  function MembersNext(members: seq<MemberTree>, comma: bool, gap: Gap, rest: Text): Text
    requires members != []
    decreases |members|, 0
  {
    if |members| == 1 && !comma then [0x7D] + rest else [0x2C] + MembersOn(members[1..], comma, gap, rest)
  }

  lemma {:induction false} MembersOnIs(members: seq<MemberTree>, comma: bool, gap: Gap, rest: Text)
    ensures MemberTexts(members, comma, gap) + rest == MembersOn(members, comma, gap, rest)
    decreases |members|
  {
    if members == [] {
      Regrouped(GapText(gap), [0x7D], rest);
    } else {
      var m := members[0];
      var next := if |members| == 1 && !comma then [0x7D] else [0x2C] + MemberTexts(members[1..], comma, gap);
      if !(|members| == 1 && !comma) {
        MembersOnIs(members[1..], comma, gap, rest);
        Regrouped([0x2C], MemberTexts(members[1..], comma, gap), rest);
      }
      assert next + rest == MembersNext(members, comma, gap, rest);
      var value := TreeText(m.value) + (GapText(m.behind) + next);
      Regrouped(GapText(m.behind), next, rest);
      Regrouped(TreeText(m.value), GapText(m.behind) + next, rest);
      assert value + rest == ValueAt(members, comma, gap, rest);
      assert MemberTexts(members, comma, gap)
          == GapText(m.before) + ([0x22] + (CharsText(m.name) + ([0x22] + (GapText(m.beforeColon)
             + ([0x3A] + (GapText(m.behindColon) + value))))));
      assert MembersAt(members, comma, gap, rest)
          == [0x22] + (CharsText(m.name) + ([0x22] + ColonAt(members, comma, gap, rest)));
      MemberRegrouped(GapText(m.before), CharsText(m.name), GapText(m.beforeColon), GapText(m.behindColon), value,
                      rest);
    }
  }

  lemma MemberRegrouped(before: Text, name: Text, beforeColon: Text, behindColon: Text, value: Text, rest: Text)
    ensures before + ([0x22] + (name + ([0x22] + (beforeColon + ([0x3A] + (behindColon + value)))))) + rest
         == before + ([0x22] + (name + ([0x22] + (beforeColon + ([0x3A] + (behindColon + (value + rest)))))))
  {
    var a := behindColon + value;
    var b := beforeColon + ([0x3A] + a);
    Regrouped(behindColon, value, rest);
    Regrouped([0x3A], a, rest);
    Regrouped(beforeColon, [0x3A] + a, rest);
    Regrouped([0x22], b, rest);
    Regrouped(name, [0x22] + b, rest);
    Regrouped([0x22], name + ([0x22] + b), rest);
    Regrouped(before, [0x22] + (name + ([0x22] + b)), rest);
  }

  lemma MembersNextBegins(members: seq<MemberTree>, comma: bool, gap: Gap, rest: Text)
    requires members != []
    ensures var next := MembersNext(members, comma, gap, rest);
            && next != [] && next[0] == (if |members| == 1 && !comma then 0x7D else 0x2C)
            && Stops(next) && EndsNumeral(next)
    ensures var next := MembersNext(members, comma, gap, rest);
            next[1..] == if |members| == 1 && !comma then rest else MembersOn(members[1..], comma, gap, rest)
  {
  }

  function MembersFrom(members: seq<MemberTree>, comma: bool, gap: Gap, rest: Text): Text {
    if members == [] then [0x7D] + rest else MembersAt(members, comma, gap, rest)
  }

  lemma SkipsToMember(flags: Flags, members: seq<MemberTree>, comma: bool, gap: Gap, rest: Text, events: seq<Event>)
    requires ValidMembers(flags, members) && ValidGap(flags, gap)
    ensures var at := MembersFrom(members, comma, gap, rest);
            && Skipped(flags, Stream(MembersOn(members, comma, gap, rest), events)) == Ok(Stream(at, events))
            && at != [] && at[0] == if members == [] then 0x7D else 0x22
  {
    if members == [] {
      SkipsGap(flags, gap, [0x7D] + rest, events);
    } else {
      SkipsGap(flags, members[0].before, MembersAt(members, comma, gap, rest), events);
    }
  }

  lemma ObjectOpens(flags: Flags, behind: Text, at: Text, before: seq<Event>)
    requires Skipped(flags, Stream(behind, before + [StartObject])) == Ok(Stream(at, before + [StartObject]))
    ensures ReadValue(flags, WILLING, Stream([0x7B] + behind, before))
         == if Peek(at) == 0x7D then Ok(Stream(at[1..], before + [StartObject] + [EndObject(0)]))
            else ReadMembers(flags, WILLING, Stream(at, before + [StartObject]), 0)
  {
    CutAt([0x7B], behind);
  }

  lemma ObjectCloses(flags: Flags, text: Text, rest: Text, events: seq<Event>, count: nat)
    requires Skipped(flags, Stream(text, events)) == Ok(Stream([0x7D] + rest, events))
    ensures ReadMemberEnd(flags, WILLING, Stream(text, events), count) == After(rest, events, [EndObject(count + 1)])
  {
    CutAt([0x7D], rest);
  }

  lemma ObjectGoesOn(flags: Flags, text: Text, behind: Text, at: Text, events: seq<Event>, count: nat)
    requires Skipped(flags, Stream(text, events)) == Ok(Stream([0x2C] + behind, events))
    requires Skipped(flags, Stream(behind, events)) == Ok(Stream(at, events))
    ensures ReadMemberEnd(flags, WILLING, Stream(text, events), count)
         == if flags.trailingCommas && Peek(at) == 0x7D then After(at[1..], events, [EndObject(count + 1)])
            else ReadMembers(flags, WILLING, Stream(at, events), count + 1)
  {
    CutAt([0x2C], behind);
  }

  lemma NameIsRead(flags: Flags, members: seq<MemberTree>, comma: bool, gap: Gap, rest: Text, before: seq<Event>)
    requires members != [] && ValidMembers(flags, members)
    ensures ReadName(flags, WILLING, Stream(MembersAt(members, comma, gap, rest), before))
         == After(GapText(members[0].behindColon) + ValueAt(members, comma, gap, rest), before,
                  [Key(CharsBytes(members[0].name))])
  {
    var m := members[0];
    var at := MembersAt(members, comma, gap, rest);
    var behind := GapText(m.behindColon) + ValueAt(members, comma, gap, rest);
    CutAt([0x22], CharsText(m.name) + ([0x22] + ColonAt(members, comma, gap, rest)));
    CharsAreRead(m.name, ColonAt(members, comma, gap, rest));
    SkipsGap(flags, m.beforeColon, [0x3A] + behind, before + [Key(CharsBytes(m.name))]);
    CutAt([0x3A], behind);
  }

  lemma {:induction false} MembersAreRead(flags: Flags, members: seq<MemberTree>, comma: bool, gap: Gap, rest: Text,
                                          before: seq<Event>, count: nat)
    requires members != [] && ValidMembers(flags, members) && ValidGap(flags, gap) && (comma ==> flags.trailingCommas)
    ensures ReadMembers(flags, WILLING, Stream(MembersAt(members, comma, gap, rest), before), count)
         == After(rest, before, MembersEvents(flags, members) + [EndObject(count + |members|)])
    decreases members, 0
  {
    var m := members[0];
    var key := [Key(CharsBytes(m.name))];
    NameIsRead(flags, members, comma, gap, rest, before);
    MemberValueIsRead(flags, members, comma, gap, rest, before + key, count);
    EventsJoin(TreeEvents(flags, m.value), MembersEvents(flags, members[1..]), [EndObject(count + |members|)]);
    EventsJoin(key, TreeEvents(flags, m.value) + MembersEvents(flags, members[1..]), [EndObject(count + |members|)]);
    EventsJoin(before, key,
               TreeEvents(flags, m.value) + (MembersEvents(flags, members[1..]) + [EndObject(count + |members|)]));
  }

  lemma {:induction false} MemberValueIsRead(flags: Flags, members: seq<MemberTree>, comma: bool, gap: Gap, rest: Text,
                                             before: seq<Event>, count: nat)
    requires members != [] && ValidMembers(flags, members) && ValidGap(flags, gap) && (comma ==> flags.trailingCommas)
    ensures var text := GapText(members[0].behindColon) + ValueAt(members, comma, gap, rest);
            ReadMemberValue(flags, WILLING, Stream(text, before), count)
            == After(rest, before, TreeEvents(flags, members[0].value)
                                   + (MembersEvents(flags, members[1..]) + [EndObject(count + |members|)]))
    decreases members, -1, 2
  {
    var m := members[0];
    var next := MembersNext(members, comma, gap, rest);
    MembersNextBegins(members, comma, gap, rest);
    GapEndsNumeral(flags, m.behind, next);
    TreeBegins(flags, m.value, GapText(m.behind) + next);
    SkipsGap(flags, m.behindColon, ValueAt(members, comma, gap, rest), before);
    ValueIsRead(flags, m.value, GapText(m.behind) + next, before);
    var events := before + TreeEvents(flags, m.value);
    MembersEndIsRead(flags, members, comma, gap, rest, events, count);
    EventsJoin(before, TreeEvents(flags, m.value), MembersEvents(flags, members[1..]) + [EndObject(count + |members|)]);
  }

  lemma {:induction false} MembersEndIsRead(flags: Flags, members: seq<MemberTree>, comma: bool, gap: Gap, rest: Text,
                                            events: seq<Event>, count: nat)
    requires members != [] && ValidMembers(flags, members) && ValidGap(flags, gap) && (comma ==> flags.trailingCommas)
    ensures var text := GapText(members[0].behind) + MembersNext(members, comma, gap, rest);
            ReadMemberEnd(flags, WILLING, Stream(text, events), count)
            == After(rest, events, MembersEvents(flags, members[1..]) + [EndObject(count + |members|)])
    decreases members, -1, 1
  {
    if |members| == 1 {
      LastMemberEnds(flags, members, comma, gap, rest, events, count);
    } else {
      AnotherMember(flags, members, comma, gap, rest, events, count);
      MoreMembersEnd(flags, members, comma, gap, rest,
                     GapText(members[0].behind) + MembersNext(members, comma, gap, rest), events, count);
    }
  }

  lemma {:induction false} MoreMembersEnd(flags: Flags, members: seq<MemberTree>, comma: bool, gap: Gap, rest: Text,
                                          text: Text, events: seq<Event>, count: nat)
    requires |members| > 1 && ValidMembers(flags, members) && ValidGap(flags, gap) && (comma ==> flags.trailingCommas)
    requires ReadMemberEnd(flags, WILLING, Stream(text, events), count)
          == ReadMembers(flags, WILLING, Stream(MembersAt(members[1..], comma, gap, rest), events), count + 1)
    ensures ReadMemberEnd(flags, WILLING, Stream(text, events), count)
         == After(rest, events, MembersEvents(flags, members[1..]) + [EndObject(count + |members|)])
    decreases members, -1, 0
  {
    MembersAreRead(flags, members[1..], comma, gap, rest, events, count + 1);
  }

  lemma AnotherMember(flags: Flags, members: seq<MemberTree>, comma: bool, gap: Gap, rest: Text, events: seq<Event>,
                      count: nat)
    requires |members| > 1 && ValidMembers(flags, members) && ValidGap(flags, gap)
    ensures var text := GapText(members[0].behind) + MembersNext(members, comma, gap, rest);
            ReadMemberEnd(flags, WILLING, Stream(text, events), count)
            == ReadMembers(flags, WILLING, Stream(MembersAt(members[1..], comma, gap, rest), events), count + 1)
  {
    var text := GapText(members[0].behind) + MembersNext(members, comma, gap, rest);
    var on, at := MembersOn(members[1..], comma, gap, rest), MembersAt(members[1..], comma, gap, rest);
    MembersNextBegins(members, comma, gap, rest);
    SkipsGap(flags, members[0].behind, MembersNext(members, comma, gap, rest), events);
    SkipsToMember(flags, members[1..], comma, gap, rest, events);
    ObjectGoesOn(flags, text, on, at, events, count);
  }

  /** Behind the last member: the bracket, or a comma and the bracket. */
  lemma LastMemberEnds(flags: Flags, members: seq<MemberTree>, comma: bool, gap: Gap, rest: Text, events: seq<Event>,
                       count: nat)
    requires |members| == 1 && ValidMembers(flags, members) && ValidGap(flags, gap) && (comma ==> flags.trailingCommas)
    ensures var text := GapText(members[0].behind) + MembersNext(members, comma, gap, rest);
            ReadMemberEnd(flags, WILLING, Stream(text, events), count)
            == After(rest, events, MembersEvents(flags, members[1..]) + [EndObject(count + |members|)])
  {
    var text := GapText(members[0].behind) + MembersNext(members, comma, gap, rest);
    MembersNextBegins(members, comma, gap, rest);
    SkipsGap(flags, members[0].behind, MembersNext(members, comma, gap, rest), events);
    NoMore(EndObject(count + 1));
    if comma {
      SkipsToMember(flags, [], comma, gap, rest, events);
      ObjectGoesOn(flags, text, MembersOn([], comma, gap, rest), [0x7D] + rest, events, count);
      CutAt([0x7D], rest);
    } else {
      ObjectCloses(flags, text, rest, events, count);
    }
  }

  lemma {:induction false} ObjectIsRead(flags: Flags, members: seq<MemberTree>, comma: bool, gap: Gap, rest: Text,
                                        before: seq<Event>)
    requires ValidEnd(flags, |members|, comma, gap) && ValidMembers(flags, members)
    ensures ReadValue(flags, WILLING, Stream([0x7B] + MembersOn(members, comma, gap, rest), before))
         == After(rest, before + [StartObject], MembersEvents(flags, members) + [EndObject(|members|)])
    decreases members, 1, 1
  {
    if members == [] {
      EmptyObjectIsRead(flags, comma, gap, rest, before);
    } else {
      MembersInBrackets(flags, members, comma, gap, rest, before);
    }
  }

  lemma {:induction false} MembersInBrackets(flags: Flags, members: seq<MemberTree>, comma: bool, gap: Gap, rest: Text,
                                             before: seq<Event>)
    requires members != [] && ValidMembers(flags, members) && ValidGap(flags, gap) && (comma ==> flags.trailingCommas)
    ensures ReadValue(flags, WILLING, Stream([0x7B] + MembersOn(members, comma, gap, rest), before))
         == After(rest, before + [StartObject], MembersEvents(flags, members) + [EndObject(|members|)])
    decreases members, 1, 0
  {
    FirstMemberAt(flags, members, comma, gap, rest, before);
    MembersAreRead(flags, members, comma, gap, rest, before + [StartObject], 0);
  }

  lemma EmptyObjectIsRead(flags: Flags, comma: bool, gap: Gap, rest: Text, before: seq<Event>)
    requires ValidGap(flags, gap)
    ensures ReadValue(flags, WILLING, Stream([0x7B] + MembersOn([], comma, gap, rest), before))
         == After(rest, before + [StartObject], [] + [EndObject(0)])
  {
    SkipsToMember(flags, [], comma, gap, rest, before + [StartObject]);
    ObjectOpens(flags, MembersOn([], comma, gap, rest), [0x7D] + rest, before);
    CutAt([0x7D], rest);
    NoMore(EndObject(0));
  }

  lemma FirstMemberAt(flags: Flags, members: seq<MemberTree>, comma: bool, gap: Gap, rest: Text, before: seq<Event>)
    requires members != [] && ValidMembers(flags, members) && ValidGap(flags, gap)
    ensures ReadValue(flags, WILLING, Stream([0x7B] + MembersOn(members, comma, gap, rest), before))
         == ReadMembers(flags, WILLING, Stream(MembersAt(members, comma, gap, rest), before + [StartObject]), 0)
  {
    SkipsToMember(flags, members, comma, gap, rest, before + [StartObject]);
    ObjectOpens(flags, MembersOn(members, comma, gap, rest), MembersAt(members, comma, gap, rest), before);
  }

  lemma ArrayText(items: seq<Item>, comma: bool, gap: Gap, rest: Text)
    ensures TreeText(ArrayTree(items, comma, gap)) + rest == [0x5B] + ItemsOn(items, comma, gap, rest)
  {
    Regrouped([0x5B], ItemTexts(items, comma, gap), rest);
    ItemsOnIs(items, comma, gap, rest);
  }

  lemma ObjectText(members: seq<MemberTree>, comma: bool, gap: Gap, rest: Text)
    ensures TreeText(ObjectTree(members, comma, gap)) + rest == [0x7B] + MembersOn(members, comma, gap, rest)
  {
    Regrouped([0x7B], MemberTexts(members, comma, gap), rest);
    MembersOnIs(members, comma, gap, rest);
  }

  /// ## Values

  lemma {:induction false} ValueIsRead(flags: Flags, t: Tree, rest: Text, before: seq<Event>)
    requires ValidTree(flags, t) && (t.NumberTree? ==> EndsNumeral(rest))
    ensures ReadValue(flags, WILLING, Stream(TreeText(t) + rest, before))
         == After(rest, before, TreeEvents(flags, t))
    decreases t, 2
  {
    match t
    case ObjectTree(members, comma, gap) =>
      ObjectText(members, comma, gap, rest);
      ObjectIsRead(flags, members, comma, gap, rest, before);
      EventsJoin(before, [StartObject], MembersEvents(flags, members) + [EndObject(|members|)]);
    case ArrayTree(items, comma, gap) =>
      ArrayText(items, comma, gap, rest);
      ArrayIsRead(flags, items, comma, gap, rest, before);
      EventsJoin(before, [StartArray], ItemsEvents(flags, items) + [EndArray(|items|)]);
    case _ =>
      TreeBegins(flags, t, rest);
      ScalarIsRead(flags, t, rest);
      ScalarBegins(flags, t, rest);
  }

  lemma ScalarBegins(flags: Flags, t: Tree, rest: Text)
    requires ValidTree(flags, t) && !t.ObjectTree? && !t.ArrayTree?
    ensures Peek(TreeText(t) + rest) != 0x7B && Peek(TreeText(t) + rest) != 0x5B && |TreeEvents(flags, t)| == 1
  {
    TreeBegins(flags, t, rest);
  }
}
