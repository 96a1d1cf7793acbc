/** Whatever the recursive parser reads is a text of the grammar, with the events of its derivation. */
module JsonGrammarReading {
  import opened JsonText
  import opened JsonReader
  import opened JsonStrings
  import opened JsonGrammar
  import opened JsonGrammarGaps
  import opened JsonGrammarTokens
  import opened JsonGrammarTrees
  import opened Wrappers
  import N = JsonNumbers

  /** Reading has gone from `st` to `r` over the text of a tree. */
  predicate IsTree(flags: Flags, t: Tree, st: Stream, r: Stream) {
    ValidTree(flags, t) && st.rest == TreeText(t) + r.rest && r.events == st.events + TreeEvents(flags, t)
  }

  /// ## Scalars

  lemma WordIsTree(t: Tree, text: Text, word: string, event: Event)
    requires word != "" && |TreeText(t)| == |word| && forall i :: 0 <= i < |word| ==> word[i] < 256 as char
    requires forall i :: 0 <= i < |word| ==> TreeText(t)[i] == word[i] as int
    requires text != [] && text[0] == word[0] as int && ReadWord(text, word, event).Lexed?
    ensures text == TreeText(t) + ReadWord(text, word, event).rest
  {
    assert text == text[..|word|] + text[|word|..];
    assert text[..|word|] == TreeText(t);
  }

  lemma StringIsTree(text: Text) returns (t: Tree)
    requires text != [] && text[0] == 0x22 && ReadString(text[1..]).Lexed?
    ensures t.StringTree? && ValidChars(t.chars) && CharsBytes(t.chars) == ReadString(text[1..]).value
    ensures text == TreeText(t) + ReadString(text[1..]).rest
  {
    var cs := StringIsChars(text[1..]);
    t := StringTree(cs);
    var rest := ReadString(text[1..]).rest;
    assert text == [0x22] + text[1..];
    Regrouped(CharsText(cs), [0x22], rest);
    Regrouped([0x22], CharsText(cs) + [0x22], rest);
  }

  lemma ScalarIsTree(flags: Flags, text: Text) returns (t: Tree)
    requires ReadScalar(text).Lexed?
    ensures ValidTree(flags, t) && TreeEvents(flags, t) == [ReadScalar(text).value]
    ensures text == TreeText(t) + ReadScalar(text).rest
  {
    var c := Peek(text);
    if c == 0x6E {
      t := NullTree;
      WordIsTree(t, text, "null", Null);
    } else if c == 0x74 {
      t := TrueTree;
      WordIsTree(t, text, "true", Bool(true));
    } else if c == 0x66 {
      t := FalseTree;
      WordIsTree(t, text, "false", Bool(false));
    } else if c == 0x22 {
      t := StringIsTree(text);
    } else {
      var n := NumberIsNumeral(text);
      t := NumberTree(n);
    }
  }

  /** A value begins with something. */
  lemma ValueIsSomething(flags: Flags, h: Handler, st: Stream)
    requires ReadValue(flags, h, st).Ok?
    ensures Peek(st.rest) != 0
  {
  }

  /** A gap that is followed by something. */
  lemma GapBefore(flags: Flags, st: Stream) returns (gap: Gap)
    requires Skipped(flags, st).Ok? && Peek(Skipped(flags, st).stream.rest) != 0
    ensures ValidGap(flags, gap) && st.rest == GapText(gap) + Skipped(flags, st).stream.rest
  {
    var last;
    gap, last := SkipIsGap(flags, st.rest);
    assert [] + Skipped(flags, st).stream.rest == Skipped(flags, st).stream.rest;
  }

  /// ## Arrays

  /** Reading has gone from `st` to `r` over the items, without the gap before the first of them. */
  predicate IsItems(flags: Flags, items: seq<Item>, comma: bool, gap: Gap, st: Stream, count: nat, r: Stream) {
    && items != [] && ValidItems(flags, items) && ValidEnd(flags, |items|, comma, gap)
    && GapText(items[0].before) + st.rest == ItemTexts(items, comma, gap) + r.rest
    && r.events == st.events + (ItemsEvents(flags, items) + [EndArray(count + |items|)])
  }

  /** From behind the first item on, with the gap there. */
  predicate IsItemsEnd(flags: Flags, items: seq<Item>, comma: bool, gap: Gap, st: Stream, count: nat, r: Stream) {
    && items != [] && ValidItems(flags, items) && ValidEnd(flags, |items|, comma, gap)
    && st.rest == GapText(items[0].behind)
                  + (if |items| == 1 && !comma then [0x5D] else [0x2C] + ItemTexts(items[1..], comma, gap)) + r.rest
    && r.events == st.events + (ItemsEvents(flags, items[1..]) + [EndArray(count + |items|)])
  }

  lemma ItemAndEnd(flags: Flags, items: seq<Item>, comma: bool, gap: Gap, st: Stream, mid: Stream, count: nat,
                   r: Stream)
    requires items != [] && IsTree(flags, items[0].value, st, mid)
    requires IsItemsEnd(flags, items, comma, gap, mid, count, r)
    ensures IsItems(flags, items, comma, gap, st, count, r)
  {
    var item := items[0];
    var next := if |items| == 1 && !comma then [0x5D] else [0x2C] + ItemTexts(items[1..], comma, gap);
    Regrouped(TreeText(item.value), GapText(item.behind) + next, r.rest);
    Regrouped(GapText(item.before), TreeText(item.value) + (GapText(item.behind) + next), r.rest);
    var closing := [EndArray(count + |items|)];
    EventsJoin(TreeEvents(flags, item.value), ItemsEvents(flags, items[1..]), closing);
    EventsJoin(st.events, TreeEvents(flags, item.value), ItemsEvents(flags, items[1..]) + closing);
  }

  /** Another item behind a comma. */
  lemma ItemBefore(flags: Flags, item: Item, items: seq<Item>, comma: bool, gap: Gap, st: Stream, next: Stream,
                   count: nat, r: Stream)
    requires ValidGap(flags, item.before) && ValidTree(flags, item.value) && ValidGap(flags, item.behind)
    requires IsItems(flags, items, comma, gap, next, count + 1, r) && next.events == st.events
    requires st.rest == GapText(item.behind) + ([0x2C] + (GapText(items[0].before) + next.rest))
    ensures IsItemsEnd(flags, [item] + items, comma, gap, st, count, r)
  {
    var all := [item] + items;
    assert all[1..] == items;
    Regrouped([0x2C], ItemTexts(items, comma, gap), r.rest);
    Regrouped(GapText(item.behind), [0x2C] + ItemTexts(items, comma, gap), r.rest);
  }

  lemma LastItem(flags: Flags, item: Item, comma: bool, gap: Gap, st: Stream, count: nat, r: Stream)
    requires ValidGap(flags, item.before) && ValidTree(flags, item.value) && ValidGap(flags, item.behind)
    requires ValidEnd(flags, 1, comma, gap) && r.events == st.events + [EndArray(count + 1)]
    requires st.rest == GapText(item.behind)
                        + ((if comma then [0x2C] + (GapText(gap) + [0x5D]) else [0x5D]) + r.rest)
    ensures IsItemsEnd(flags, [item], comma, gap, st, count, r)
  {
    assert [item][1..] == [];
    NoMore(EndArray(count + 1));
    Regrouped(GapText(item.behind), if comma then [0x2C] + (GapText(gap) + [0x5D]) else [0x5D], r.rest);
  }

  lemma {:induction false} ElementsAreItems(flags: Flags, h: Handler, st: Stream, before: Gap, count: nat)
    returns (items: seq<Item>, comma: bool, gap: Gap)
    requires ReadElements(flags, h, st, count).Ok? && ValidGap(flags, before)
    ensures IsItems(flags, items, comma, gap, st, count, ReadElements(flags, h, st, count).stream)
    ensures items[0].before == before
    decreases |st.rest|, 3
  {
    var t := ValueIsTree(flags, h, st);
    var mid := ReadValue(flags, h, st).stream;
    items, comma, gap := ElementEndIsItems(flags, h, mid, before, t, count);
    ItemAndEnd(flags, items, comma, gap, st, mid, count, ReadElements(flags, h, st, count).stream);
  }

  lemma ClosedItem(flags: Flags, h: Handler, st: Stream, item: Item, count: nat)
    requires ReadElementEnd(flags, h, st, count).Ok? && Peek(Skipped(flags, st).stream.rest) != 0x2C
    requires ValidGap(flags, item.before) && ValidTree(flags, item.value) && ValidGap(flags, item.behind)
    requires st.rest == GapText(item.behind) + Skipped(flags, st).stream.rest
    ensures IsItemsEnd(flags, [item], false, [], st, count, ReadElementEnd(flags, h, st, count).stream)
  {
    var at := Skipped(flags, st).stream;
    assert at.rest == [0x5D] + Took(at).rest;
    LastItem(flags, item, false, [], st, count, ReadElementEnd(flags, h, st, count).stream);
  }

  lemma TrailedItem(flags: Flags, h: Handler, st: Stream, item: Item, count: nat) returns (gap: Gap)
    requires ReadElementEnd(flags, h, st, count).Ok? && Peek(Skipped(flags, st).stream.rest) == 0x2C
    requires Peek(Skipped(flags, Took(Skipped(flags, st).stream)).stream.rest) == 0x5D && flags.trailingCommas
    requires ValidGap(flags, item.before) && ValidTree(flags, item.value) && ValidGap(flags, item.behind)
    requires st.rest == GapText(item.behind) + Skipped(flags, st).stream.rest
    ensures IsItemsEnd(flags, [item], true, gap, st, count, ReadElementEnd(flags, h, st, count).stream)
  {
    var at := Skipped(flags, st).stream;
    assert at.rest == [0x2C] + Took(at).rest;
    gap := GapBefore(flags, Took(at));
    var r := ReadElementEnd(flags, h, st, count).stream;
    TrailingText(gap, 0x5D, r.rest, Skipped(flags, Took(at)).stream.rest);
    LastItem(flags, item, true, gap, st, count, r);
  }

  /** Whether the reader goes on behind the comma at which it stands. */
  predicate GoesOn(flags: Flags, at: Stream, close: Byte) {
    && Peek(at.rest) == 0x2C && Skipped(flags, Took(at)).Ok?
    && !(flags.trailingCommas && Peek(Skipped(flags, Took(at)).stream.rest) == close)
  }

  lemma ElementsGoOn(flags: Flags, h: Handler, st: Stream, count: nat)
    requires ReadElementEnd(flags, h, st, count).Ok?
    ensures Skipped(flags, st).Ok? && Peek(Skipped(flags, st).stream.rest) != 0
    ensures Peek(Skipped(flags, st).stream.rest) == 0x2C ==> Skipped(flags, Took(Skipped(flags, st).stream)).Ok?
    ensures var at := Skipped(flags, st).stream;
            GoesOn(flags, at, 0x5D) ==>
              ReadElementEnd(flags, h, st, count)
              == ReadElements(flags, h, Skipped(flags, Took(at)).stream, count + 1)
  {
  }

  lemma AnotherItemIs(flags: Flags, item: Item, items: seq<Item>, comma: bool, gap: Gap, st: Stream, at: Stream,
                      next: Stream, count: nat, r: Stream)
    requires ValidGap(flags, item.before) && ValidTree(flags, item.value) && ValidGap(flags, item.behind)
    requires IsItems(flags, items, comma, gap, next, count + 1, r)
    requires st.rest == GapText(item.behind) + at.rest && Peek(at.rest) == 0x2C && next.events == st.events
    requires Took(at).rest == GapText(items[0].before) + next.rest
    ensures IsItemsEnd(flags, [item] + items, comma, gap, st, count, r)
  {
    assert at.rest == [0x2C] + Took(at).rest;
    ItemBefore(flags, item, items, comma, gap, st, next, count, r);
  }

  lemma {:induction false} ElementEndIsItems(flags: Flags, h: Handler, st: Stream, before: Gap, t: Tree, count: nat)
    returns (items: seq<Item>, comma: bool, gap: Gap)
    requires ReadElementEnd(flags, h, st, count).Ok? && ValidGap(flags, before) && ValidTree(flags, t)
    ensures IsItemsEnd(flags, items, comma, gap, st, count, ReadElementEnd(flags, h, st, count).stream)
    ensures items[0].before == before && items[0].value == t
    decreases |st.rest|, 4
  {
    ElementsGoOn(flags, h, st, count);
    var behind := GapBefore(flags, st);
    var item := Item(before, t, behind);
    var at := Skipped(flags, st).stream;
    if GoesOn(flags, at, 0x5D) {
      items, comma, gap := MoreElements(flags, h, Took(at), count);
      AnotherItemIs(flags, item, items, comma, gap, st, at, Skipped(flags, Took(at)).stream, count,
                    ReadElementEnd(flags, h, st, count).stream);
      items := [item] + items;
    } else if at.rest[0] == 0x2C {
      gap := TrailedItem(flags, h, st, item, count);
      items, comma := [item], true;
    } else {
      ClosedItem(flags, h, st, item, count);
      items, comma, gap := [item], false, [];
    }
  }

  /** From behind a comma on. */
  lemma {:induction false} MoreElements(flags: Flags, h: Handler, st: Stream, count: nat)
    returns (items: seq<Item>, comma: bool, gap: Gap)
    requires Skipped(flags, st).Ok? && ReadElements(flags, h, Skipped(flags, st).stream, count + 1).Ok?
    ensures var next := Skipped(flags, st).stream;
            && IsItems(flags, items, comma, gap, next, count + 1, ReadElements(flags, h, next, count + 1).stream)
            && st.rest == GapText(items[0].before) + next.rest
    decreases |st.rest|, 4
  {
    var next := Skipped(flags, st).stream;
    ValueIsSomething(flags, h, next);
    var before := GapBefore(flags, st);
    items, comma, gap := ElementsAreItems(flags, h, next, before, count + 1);
  }

  lemma TrailingText(gap: Gap, close: Byte, rest: Text, at: Text)
    requires at != [] && at[0] == close && rest == at[1..]
    ensures [0x2C] + (GapText(gap) + at) == [0x2C] + (GapText(gap) + [close]) + rest
  {
    assert at == [close] + rest;
    Regrouped(GapText(gap), [close], rest);
    Regrouped([0x2C], GapText(gap) + [close], rest);
  }

  lemma EmptyArrayIsTree(flags: Flags, gap: Gap, text: Text, st: Stream, r: Stream)
    requires ValidGap(flags, gap) && st.rest == [0x5B] + text && text == GapText(gap) + ([0x5D] + r.rest)
    requires r.events == st.events + [StartArray] + [EndArray(0)]
    ensures IsTree(flags, ArrayTree([], false, gap), st, r)
  {
    NoMore(EndArray(0));
    EventsJoin(st.events, [StartArray], [] + [EndArray(0)]);
    Regrouped(GapText(gap), [0x5D], r.rest);
    Regrouped([0x5B], ItemTexts([], false, gap), r.rest);
  }

  lemma ItemsAreTree(flags: Flags, items: seq<Item>, comma: bool, gap: Gap, text: Text, st: Stream,
                     first: Stream, r: Stream)
    requires IsItems(flags, items, comma, gap, first, 0, r) && st.rest == [0x5B] + text
    requires text == GapText(items[0].before) + first.rest && first.events == st.events + [StartArray]
    ensures IsTree(flags, ArrayTree(items, comma, gap), st, r)
  {
    Regrouped([0x5B], ItemTexts(items, comma, gap), r.rest);
    EventsJoin(st.events, [StartArray], ItemsEvents(flags, items) + [EndArray(|items|)]);
  }

  lemma ArrayOpened(flags: Flags, h: Handler, st: Stream)
    requires Peek(st.rest) == 0x5B && ReadArray(flags, h, st).Ok?
    ensures Emit(h, Took(st), StartArray).Ok?
    ensures var open := Emit(h, Took(st), StartArray).stream;
            && st.rest == [0x5B] + open.rest && open.events == st.events + [StartArray] && Skipped(flags, open).Ok?
            && var first := Skipped(flags, open).stream;
               first.rest != [] && if first.rest[0] == 0x5D then
                 ReadArray(flags, h, st) == Emit(h, Took(first), EndArray(0))
               else ReadArray(flags, h, st) == ReadElements(flags, h, first, 0)
  {
  }

  lemma ClosedArray(flags: Flags, h: Handler, st: Stream, open: Stream) returns (t: Tree)
    requires Skipped(flags, open).Ok? && Peek(Skipped(flags, open).stream.rest) == 0x5D
    requires Emit(h, Took(Skipped(flags, open).stream), EndArray(0)).Ok?
    requires st.rest == [0x5B] + open.rest && open.events == st.events + [StartArray]
    ensures IsTree(flags, t, st, Emit(h, Took(Skipped(flags, open).stream), EndArray(0)).stream)
  {
    var gap := GapBefore(flags, open);
    var first := Skipped(flags, open).stream;
    assert first.rest == [0x5D] + Took(first).rest;
    EmptyArrayIsTree(flags, gap, open.rest, st, Emit(h, Took(first), EndArray(0)).stream);
    t := ArrayTree([], false, gap);
  }

  lemma {:induction false} ArrayIsTree(flags: Flags, h: Handler, st: Stream) returns (t: Tree)
    requires Peek(st.rest) == 0x5B && ReadArray(flags, h, st).Ok?
    ensures IsTree(flags, t, st, ReadArray(flags, h, st).stream)
    decreases |st.rest|, 1
  {
    ArrayOpened(flags, h, st);
    var open := Emit(h, Took(st), StartArray).stream;
    var first := Skipped(flags, open).stream;
    if Peek(first.rest) == 0x5D {
      t := ClosedArray(flags, h, st, open);
    } else {
      ElementIsSomething(flags, h, first);
      var before := GapBefore(flags, open);
      var items, comma, gap := ElementsAreItems(flags, h, first, before, 0);
      ItemsAreTree(flags, items, comma, gap, open.rest, st, first, ReadArray(flags, h, st).stream);
      t := ArrayTree(items, comma, gap);
    }
  }

  lemma ElementIsSomething(flags: Flags, h: Handler, st: Stream)
    requires ReadElements(flags, h, st, 0).Ok?
    ensures Peek(st.rest) != 0
  {
    ValueIsSomething(flags, h, st);
  }

  /// ## Objects

  /** Reading has gone from `st` to `r` over the members, without the gap before the first of them. */
  predicate IsMembers(flags: Flags, members: seq<MemberTree>, comma: bool, gap: Gap, st: Stream, count: nat, r: Stream)
  {
    && members != [] && ValidMembers(flags, members) && ValidEnd(flags, |members|, comma, gap)
    && GapText(members[0].before) + st.rest == MemberTexts(members, comma, gap) + r.rest
    && r.events == st.events + (MembersEvents(flags, members) + [EndObject(count + |members|)])
  }

  /** The text behind the first member. */
  function TextBehind(members: seq<MemberTree>, comma: bool, gap: Gap): Text
    requires members != []
  {
    GapText(members[0].behind)
    + if |members| == 1 && !comma then [0x7D] else [0x2C] + MemberTexts(members[1..], comma, gap)
  }

  /** From behind the first member on, with the gap there. */
  predicate IsMembersEnd(flags: Flags, members: seq<MemberTree>, comma: bool, gap: Gap, st: Stream, count: nat,
                         r: Stream)
  {
    && members != [] && ValidMembers(flags, members) && ValidEnd(flags, |members|, comma, gap)
    && st.rest == TextBehind(members, comma, gap) + r.rest
    && r.events == st.events + (MembersEvents(flags, members[1..]) + [EndObject(count + |members|)])
  }

  /** From the gap behind the colon of the first member on. */
  predicate IsMemberValue(flags: Flags, members: seq<MemberTree>, comma: bool, gap: Gap, st: Stream, count: nat,
                          r: Stream)
  {
    && members != [] && ValidMembers(flags, members) && ValidEnd(flags, |members|, comma, gap)
    && st.rest == GapText(members[0].behindColon) + (TreeText(members[0].value) + TextBehind(members, comma, gap))
                  + r.rest
    && r.events == st.events + (TreeEvents(flags, members[0].value)
                                + (MembersEvents(flags, members[1..]) + [EndObject(count + |members|)]))
  }

  /** From the quote of a name to behind the colon. */
  predicate IsName(flags: Flags, name: seq<Char>, beforeColon: Gap, st: Stream, r: Stream) {
    && ValidChars(name) && ValidGap(flags, beforeColon)
    && st.rest == [0x22] + (CharsText(name) + ([0x22] + (GapText(beforeColon) + ([0x3A] + r.rest))))
    && r.events == st.events + [Key(CharsBytes(name))]
  }

  lemma NameIs(flags: Flags, h: Handler, st: Stream) returns (name: seq<Char>, beforeColon: Gap)
    requires ReadName(flags, h, st).Ok?
    ensures IsName(flags, name, beforeColon, st, ReadName(flags, h, st).stream)
  {
    var key := EmitKey(h, st).stream;
    name := StringIsChars(st.rest[1..]);
    beforeColon := GapBefore(flags, key);
    assert st.rest == [0x22] + st.rest[1..];
    var at := Skipped(flags, key).stream;
    assert at.rest == [0x3A] + Took(at).rest;
  }

  lemma ValueAndEnd(flags: Flags, members: seq<MemberTree>, comma: bool, gap: Gap, st: Stream, at: Stream, mid: Stream,
                    count: nat, r: Stream)
    requires members != [] && st.rest == GapText(members[0].behindColon) + at.rest && st.events == at.events
    requires IsTree(flags, members[0].value, at, mid) && IsMembersEnd(flags, members, comma, gap, mid, count, r)
    ensures IsMemberValue(flags, members, comma, gap, st, count, r)
  {
    var m := members[0];
    Regrouped(TreeText(m.value), TextBehind(members, comma, gap), r.rest);
    Regrouped(GapText(m.behindColon), TreeText(m.value) + TextBehind(members, comma, gap), r.rest);
    EventsJoin(st.events, TreeEvents(flags, m.value),
               MembersEvents(flags, members[1..]) + [EndObject(count + |members|)]);
  }

  lemma NameAndValue(flags: Flags, members: seq<MemberTree>, comma: bool, gap: Gap, st: Stream, mid: Stream, count: nat,
                     r: Stream)
    requires members != [] && IsName(flags, members[0].name, members[0].beforeColon, st, mid)
    requires IsMemberValue(flags, members, comma, gap, mid, count, r)
    ensures IsMembers(flags, members, comma, gap, st, count, r)
  {
    var m := members[0];
    var key, closing := [Key(CharsBytes(m.name))], [EndObject(count + |members|)];
    EventsJoin(TreeEvents(flags, m.value), MembersEvents(flags, members[1..]), closing);
    EventsJoin(key, TreeEvents(flags, m.value) + MembersEvents(flags, members[1..]), closing);
    EventsJoin(st.events, key, TreeEvents(flags, m.value) + (MembersEvents(flags, members[1..]) + closing));
    var value := TreeText(m.value) + TextBehind(members, comma, gap);
    FirstMemberText(members, comma, gap);
    Regrouped(GapText(m.behindColon), value,
                    r.rest);
    MemberRegrouped(GapText(m.before), CharsText(m.name), GapText(m.beforeColon), GapText(m.behindColon), value,
                    r.rest);
  }

  lemma FirstMemberText(members: seq<MemberTree>, comma: bool, gap: Gap)
    requires members != []
    ensures var m := members[0];
            MemberTexts(members, comma, gap)
            == GapText(m.before) + ([0x22] + (CharsText(m.name) + ([0x22] + (GapText(m.beforeColon)
               + ([0x3A] + (GapText(m.behindColon) + (TreeText(m.value) + TextBehind(members, comma, gap))))))))
  {
  }

  predicate ValidMember(flags: Flags, m: MemberTree) {
    && ValidGap(flags, m.before) && ValidChars(m.name) && ValidGap(flags, m.beforeColon)
    && ValidGap(flags, m.behindColon) && ValidTree(flags, m.value) && ValidGap(flags, m.behind)
  }

  /** Another member behind a comma. */
  lemma MemberBefore(flags: Flags, m: MemberTree, members: seq<MemberTree>, comma: bool, gap: Gap, st: Stream,
                     next: Stream, count: nat, r: Stream)
    requires ValidMember(flags, m) && IsMembers(flags, members, comma, gap, next, count + 1, r)
    requires next.events == st.events
    requires st.rest == GapText(m.behind) + ([0x2C] + (GapText(members[0].before) + next.rest))
    ensures IsMembersEnd(flags, [m] + members, comma, gap, st, count, r)
  {
    var all := [m] + members;
    assert all[1..] == members;
    Regrouped([0x2C], MemberTexts(members, comma, gap), r.rest);
    Regrouped(GapText(m.behind), [0x2C] + MemberTexts(members, comma, gap), r.rest);
  }

  lemma LastMember(flags: Flags, m: MemberTree, comma: bool, gap: Gap, st: Stream, count: nat, r: Stream)
    requires ValidMember(flags, m) && ValidEnd(flags, 1, comma, gap) && r.events == st.events + [EndObject(count + 1)]
    requires st.rest == GapText(m.behind)
                        + ((if comma then [0x2C] + (GapText(gap) + [0x7D]) else [0x7D]) + r.rest)
    ensures IsMembersEnd(flags, [m], comma, gap, st, count, r)
  {
    assert [m][1..] == [];
    NoMore(EndObject(count + 1));
    Regrouped(GapText(m.behind), if comma then [0x2C] + (GapText(gap) + [0x7D]) else [0x7D], r.rest);
  }

  lemma MembersGoOn(flags: Flags, h: Handler, st: Stream, count: nat)
    requires ReadMemberEnd(flags, h, st, count).Ok?
    ensures Skipped(flags, st).Ok? && Peek(Skipped(flags, st).stream.rest) != 0
    ensures Peek(Skipped(flags, st).stream.rest) == 0x2C ==> Skipped(flags, Took(Skipped(flags, st).stream)).Ok?
    ensures var at := Skipped(flags, st).stream;
            GoesOn(flags, at, 0x7D) ==>
              ReadMemberEnd(flags, h, st, count)
              == ReadMembers(flags, h, Skipped(flags, Took(at)).stream, count + 1)
  {
  }

  lemma ClosedMember(flags: Flags, h: Handler, st: Stream, m: MemberTree, count: nat)
    requires ReadMemberEnd(flags, h, st, count).Ok? && Peek(Skipped(flags, st).stream.rest) != 0x2C
    requires ValidMember(flags, m) && st.rest == GapText(m.behind) + Skipped(flags, st).stream.rest
    ensures IsMembersEnd(flags, [m], false, [], st, count, ReadMemberEnd(flags, h, st, count).stream)
  {
    var at := Skipped(flags, st).stream;
    assert at.rest == [0x7D] + Took(at).rest;
    LastMember(flags, m, false, [], st, count, ReadMemberEnd(flags, h, st, count).stream);
  }

  lemma TrailedMember(flags: Flags, h: Handler, st: Stream, m: MemberTree, count: nat) returns (gap: Gap)
    requires ReadMemberEnd(flags, h, st, count).Ok? && Peek(Skipped(flags, st).stream.rest) == 0x2C
    requires Peek(Skipped(flags, Took(Skipped(flags, st).stream)).stream.rest) == 0x7D && flags.trailingCommas
    requires ValidMember(flags, m) && st.rest == GapText(m.behind) + Skipped(flags, st).stream.rest
    ensures IsMembersEnd(flags, [m], true, gap, st, count, ReadMemberEnd(flags, h, st, count).stream)
  {
    var at := Skipped(flags, st).stream;
    assert at.rest == [0x2C] + Took(at).rest;
    gap := GapBefore(flags, Took(at));
    var r := ReadMemberEnd(flags, h, st, count).stream;
    TrailingText(gap, 0x7D, r.rest, Skipped(flags, Took(at)).stream.rest);
    LastMember(flags, m, true, gap, st, count, r);
  }

  lemma AnotherMemberIs(flags: Flags, m: MemberTree, members: seq<MemberTree>, comma: bool, gap: Gap, st: Stream,
                        at: Stream, next: Stream, count: nat, r: Stream)
    requires ValidMember(flags, m) && IsMembers(flags, members, comma, gap, next, count + 1, r)
    requires st.rest == GapText(m.behind) + at.rest && Peek(at.rest) == 0x2C && next.events == st.events
    requires Took(at).rest == GapText(members[0].before) + next.rest
    ensures IsMembersEnd(flags, [m] + members, comma, gap, st, count, r)
  {
    assert at.rest == [0x2C] + Took(at).rest;
    MemberBefore(flags, m, members, comma, gap, st, next, count, r);
  }

  lemma {:induction false} MembersAreMembers(flags: Flags, h: Handler, st: Stream, before: Gap, count: nat)
    returns (members: seq<MemberTree>, comma: bool, gap: Gap)
    requires ReadMembers(flags, h, st, count).Ok? && ValidGap(flags, before)
    ensures IsMembers(flags, members, comma, gap, st, count, ReadMembers(flags, h, st, count).stream)
    ensures members[0].before == before
    decreases |st.rest|, 0
  {
    var name, beforeColon := NameIs(flags, h, st);
    var mid := ReadName(flags, h, st).stream;
    members, comma, gap := MemberValueIs(flags, h, mid, before, name, beforeColon, count);
    NameAndValue(flags, members, comma, gap, st, mid, count, ReadMembers(flags, h, st, count).stream);
  }

  /** From behind the colon on. */
  lemma {:induction false} MemberValueIs(flags: Flags, h: Handler, st: Stream, before: Gap, name: seq<Char>,
                                         beforeColon: Gap, count: nat)
    returns (members: seq<MemberTree>, comma: bool, gap: Gap)
    requires ReadMemberValue(flags, h, st, count).Ok?
    requires ValidGap(flags, before) && ValidChars(name) && ValidGap(flags, beforeColon)
    ensures IsMemberValue(flags, members, comma, gap, st, count, ReadMemberValue(flags, h, st, count).stream)
    ensures members[0].before == before && members[0].name == name && members[0].beforeColon == beforeColon
    decreases |st.rest|, 3
  {
    var at := Skipped(flags, st).stream;
    ValueIsSomething(flags, h, at);
    var behindColon := GapBefore(flags, st);
    var t := ValueIsTree(flags, h, at);
    var mid := ReadValue(flags, h, at).stream;
    var m := MemberTree(before, name, beforeColon, behindColon, t, []);
    members, comma, gap := MemberEndIs(flags, h, mid, m, count);
    ValueAndEnd(flags, members, comma, gap, st, at, mid, count, ReadMemberValue(flags, h, st, count).stream);
  }

  /** From behind the value of `m` on; the gap of `m` there is still to be found. */
  lemma {:induction false} MemberEndIs(flags: Flags, h: Handler, st: Stream, m: MemberTree, count: nat)
    returns (members: seq<MemberTree>, comma: bool, gap: Gap)
    requires ReadMemberEnd(flags, h, st, count).Ok? && ValidMember(flags, m)
    ensures IsMembersEnd(flags, members, comma, gap, st, count, ReadMemberEnd(flags, h, st, count).stream)
    ensures members[0] == m.(behind := members[0].behind)
    decreases |st.rest|, 4
  {
    MembersGoOn(flags, h, st, count);
    var behind := GapBefore(flags, st);
    var m := m.(behind := behind);
    var at := Skipped(flags, st).stream;
    if GoesOn(flags, at, 0x7D) {
      members, comma, gap := MoreMembers(flags, h, Took(at), count);
      AnotherMemberIs(flags, m, members, comma, gap, st, at, Skipped(flags, Took(at)).stream, count,
                      ReadMemberEnd(flags, h, st, count).stream);
      members := [m] + members;
    } else if at.rest[0] == 0x2C {
      gap := TrailedMember(flags, h, st, m, count);
      members, comma := [m], true;
    } else {
      ClosedMember(flags, h, st, m, count);
      members, comma, gap := [m], false, [];
    }
  }

  /** From behind a comma on. */
  lemma {:induction false} MoreMembers(flags: Flags, h: Handler, st: Stream, count: nat)
    returns (members: seq<MemberTree>, comma: bool, gap: Gap)
    requires Skipped(flags, st).Ok? && ReadMembers(flags, h, Skipped(flags, st).stream, count + 1).Ok?
    ensures var next := Skipped(flags, st).stream;
            && IsMembers(flags, members, comma, gap, next, count + 1, ReadMembers(flags, h, next, count + 1).stream)
            && st.rest == GapText(members[0].before) + next.rest
    decreases |st.rest|, 4
  {
    var next := Skipped(flags, st).stream;
    NameIsSomething(flags, h, next, count + 1);
    var before := GapBefore(flags, st);
    members, comma, gap := MembersAreMembers(flags, h, next, before, count + 1);
  }

  lemma NameIsSomething(flags: Flags, h: Handler, st: Stream, count: nat)
    requires ReadMembers(flags, h, st, count).Ok?
    ensures Peek(st.rest) == 0x22
  {
  }

  lemma EmptyObjectIsTree(flags: Flags, gap: Gap, text: Text, st: Stream, r: Stream)
    requires ValidGap(flags, gap) && st.rest == [0x7B] + text && text == GapText(gap) + ([0x7D] + r.rest)
    requires r.events == st.events + [StartObject] + [EndObject(0)]
    ensures IsTree(flags, ObjectTree([], false, gap), st, r)
  {
    NoMore(EndObject(0));
    EventsJoin(st.events, [StartObject], [] + [EndObject(0)]);
    Regrouped(GapText(gap), [0x7D], r.rest);
    Regrouped([0x7B], MemberTexts([], false, gap), r.rest);
  }

  lemma MembersAreTree(flags: Flags, members: seq<MemberTree>, comma: bool, gap: Gap, text: Text, st: Stream,
                       first: Stream, r: Stream)
    requires IsMembers(flags, members, comma, gap, first, 0, r) && st.rest == [0x7B] + text
    requires text == GapText(members[0].before) + first.rest && first.events == st.events + [StartObject]
    ensures IsTree(flags, ObjectTree(members, comma, gap), st, r)
  {
    Regrouped([0x7B], MemberTexts(members, comma, gap), r.rest);
    EventsJoin(st.events, [StartObject], MembersEvents(flags, members) + [EndObject(|members|)]);
  }

  lemma ObjectOpened(flags: Flags, h: Handler, st: Stream)
    requires Peek(st.rest) == 0x7B && ReadObject(flags, h, st).Ok?
    ensures Emit(h, Took(st), StartObject).Ok?
    ensures var open := Emit(h, Took(st), StartObject).stream;
            && st.rest == [0x7B] + open.rest && open.events == st.events + [StartObject] && Skipped(flags, open).Ok?
            && var first := Skipped(flags, open).stream;
               first.rest != [] && if first.rest[0] == 0x7D then
                 ReadObject(flags, h, st) == Emit(h, Took(first), EndObject(0))
               else ReadObject(flags, h, st) == ReadMembers(flags, h, first, 0)
  {
  }

  lemma ClosedObject(flags: Flags, h: Handler, st: Stream, open: Stream) returns (t: Tree)
    requires Skipped(flags, open).Ok? && Peek(Skipped(flags, open).stream.rest) == 0x7D
    requires Emit(h, Took(Skipped(flags, open).stream), EndObject(0)).Ok?
    requires st.rest == [0x7B] + open.rest && open.events == st.events + [StartObject]
    ensures IsTree(flags, t, st, Emit(h, Took(Skipped(flags, open).stream), EndObject(0)).stream)
  {
    var gap := GapBefore(flags, open);
    var first := Skipped(flags, open).stream;
    assert first.rest == [0x7D] + Took(first).rest;
    EmptyObjectIsTree(flags, gap, open.rest, st, Emit(h, Took(first), EndObject(0)).stream);
    t := ObjectTree([], false, gap);
  }

  lemma {:induction false} ObjectIsTree(flags: Flags, h: Handler, st: Stream) returns (t: Tree)
    requires Peek(st.rest) == 0x7B && ReadObject(flags, h, st).Ok?
    ensures IsTree(flags, t, st, ReadObject(flags, h, st).stream)
    decreases |st.rest|, 1
  {
    ObjectOpened(flags, h, st);
    var open := Emit(h, Took(st), StartObject).stream;
    var first := Skipped(flags, open).stream;
    if Peek(first.rest) == 0x7D {
      t := ClosedObject(flags, h, st, open);
    } else {
      NameIsSomething(flags, h, first, 0);
      var before := GapBefore(flags, open);
      var members, comma, gap := MembersAreMembers(flags, h, first, before, 0);
      MembersAreTree(flags, members, comma, gap, open.rest, st, first, ReadObject(flags, h, st).stream);
      t := ObjectTree(members, comma, gap);
    }
  }

  /// ## Values

  lemma {:induction false} ValueIsTree(flags: Flags, h: Handler, st: Stream) returns (t: Tree)
    requires ReadValue(flags, h, st).Ok?
    ensures IsTree(flags, t, st, ReadValue(flags, h, st).stream)
    decreases |st.rest|, 2
  {
    if Peek(st.rest) == 0x7B {
      t := ObjectIsTree(flags, h, st);
    } else if Peek(st.rest) == 0x5B {
      t := ArrayIsTree(flags, h, st);
    } else {
      t := ScalarIsTree(flags, st.rest);
    }
  }
}
