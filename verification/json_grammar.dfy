/** JSON as a grammar, written with the numbers of its characters: derivations, the texts they stand for,
  and what they mean as events and as values. Nothing here is how a parser goes about it. */
module JsonGrammar {
  import opened JsonText
  import opened JsonReader
  import opened Wrappers
  import D = JsonDocument
  import N = JsonNumbers
  import opened Powers

  /// ## What may stand between the tokens

  /** One blank, a block comment, or a comment to the end of its line. */
  datatype Piece = Blank(c: Byte) | Block(body: Text) | Line(body: Text)

  type Gap = seq<Piece>

  predicate ValidPiece(flags: Flags, p: Piece) {
    match p
    case Blank(c) => c == 0x20 || c == 0x09 || c == 0x0A || c == 0x0D
    case Block(body) =>
      flags.comments && 0 !in body && forall i :: 0 <= i < |body| - 1 ==> body[i] != 0x2A || body[i + 1] != 0x2F
    case Line(body) => flags.comments && 0 !in body && 0x0A !in body
  }

  predicate ValidGap(flags: Flags, gap: Gap) {
    forall i :: 0 <= i < |gap| ==> ValidPiece(flags, gap[i])
  }

  function PieceText(p: Piece): Text {
    match p
    case Blank(c) => [c]
    case Block(body) => [0x2F, 0x2A] + (body + [0x2A, 0x2F])
    case Line(body) => [0x2F, 0x2F] + (body + [0x0A])
  }

  function GapText(gap: Gap): Text {
    if gap == [] then [] else PieceText(gap[0]) + GapText(gap[1..])
  }

  /// ## Strings

  /** A character of a string: as it is, behind a backslash, as four hexadecimal digits, or as two times
      four of them. */
  datatype Char = Raw(c: Byte) | Short(letter: Byte) | Unicode(digits: Text) | Pair(high: Text, low: Text)

  /** What a letter behind a backslash stands for: `" / \ b f n r t`. */
  const SHORT: map<int, Byte> := map[0x22 := 0x22, 0x2F := 0x2F, 0x5C := 0x5C, 0x62 := 0x08, 0x66 := 0x0C,
                                     0x6E := 0x0A, 0x72 := 0x0D, 0x74 := 0x09]

  /** The digits in both cases. */
  const HEX: map<int, nat> := map[0x30 := 0, 0x31 := 1, 0x32 := 2, 0x33 := 3, 0x34 := 4, 0x35 := 5, 0x36 := 6,
                                  0x37 := 7, 0x38 := 8, 0x39 := 9,
                                  0x41 := 10, 0x42 := 11, 0x43 := 12, 0x44 := 13, 0x45 := 14, 0x46 := 15,
                                  0x61 := 10, 0x62 := 11, 0x63 := 12, 0x64 := 13, 0x65 := 14, 0x66 := 15]

  predicate FourDigits(digits: Text) {
    |digits| == 4 && digits[0] in HEX && digits[1] in HEX && digits[2] in HEX && digits[3] in HEX
  }

  function Hex(digit: Byte): (d: nat)
    requires digit in HEX
    ensures d < 16
  {
    HEX[digit]
  }

  function HexNumber(digits: Text): (u: nat)
    requires FourDigits(digits)
    ensures u < 0x10000
  {
    4096 * Hex(digits[0]) + 256 * Hex(digits[1]) + 16 * Hex(digits[2]) + Hex(digits[3])
  }

  predicate ValidChar(c: Char) {
    match c
    case Raw(b) => b >= 0x20 && b != 0x22 && b != 0x5C
    case Short(letter) => letter in SHORT
    case Unicode(digits) => FourDigits(digits) && !(0xD800 <= HexNumber(digits) <= 0xDBFF)
    case Pair(high, low) =>
      && FourDigits(high) && 0xD800 <= HexNumber(high) <= 0xDBFF
      && FourDigits(low) && 0xDC00 <= HexNumber(low) <= 0xDFFF
  }

  function CharText(c: Char): Text {
    match c
    case Raw(b) => [b]
    case Short(letter) => [0x5C, letter]
    case Unicode(digits) => [0x5C, 0x75] + digits
    case Pair(high, low) => [0x5C, 0x75] + (high + ([0x5C, 0x75] + low))
  }

  /** The UTF-8 bytes of a code point. */
  function Utf8(c: nat): Text
    requires c < 0x110000
  {
    if c < 0x80 then [c]
    else if c < 0x800 then [0xC0 + c / 0x40, 0x80 + c % 0x40]
    else if c < 0x10000 then [0xE0 + c / 0x1000, 0x80 + c / 0x40 % 0x40, 0x80 + c % 0x40]
    else [0xF0 + c / 0x40000, 0x80 + c / 0x1000 % 0x40, 0x80 + c / 0x40 % 0x40, 0x80 + c % 0x40]
  }

  /** The bytes that a character stands for. */
  function CharBytes(c: Char): Text
    requires ValidChar(c)
  {
    match c
    case Raw(b) => [b]
    case Short(letter) => [SHORT[letter]]
    case Unicode(digits) => Utf8(HexNumber(digits))
    case Pair(high, low) => Utf8(0x10000 + 0x400 * (HexNumber(high) - 0xD800) + (HexNumber(low) - 0xDC00))
  }

  predicate ValidChars(cs: seq<Char>) {
    forall i :: 0 <= i < |cs| ==> ValidChar(cs[i])
  }

  function CharsText(cs: seq<Char>): Text {
    if cs == [] then [] else CharText(cs[0]) + CharsText(cs[1..])
  }

  function CharsBytes(cs: seq<Char>): Text
    requires ValidChars(cs)
  {
    if cs == [] then [] else CharBytes(cs[0]) + CharsBytes(cs[1..])
  }

  /// ## Numbers

  /** `letter` is `e` or `E`, `sign` is `+` or `-`. */
  datatype Exponent = Exponent(letter: Byte, sign: Option<Byte>, digits: Text)

  datatype Numeral = Numeral(minus: bool, integer: Text, fraction: Option<Text>, exponent: Option<Exponent>)

  predicate Digits(text: Text) {
    text != [] && forall i :: 0 <= i < |text| ==> 0x30 <= text[i] <= 0x39
  }

  predicate ValidExponent(e: Exponent) {
    && (e.letter == 0x65 || e.letter == 0x45) && Digits(e.digits)
    && (e.sign.Some? ==> e.sign.value == 0x2B || e.sign.value == 0x2D)
  }

  /** A zero stands alone before the point. */
  predicate ValidNumeral(n: Numeral) {
    && Digits(n.integer) && (n.integer[0] == 0x30 ==> |n.integer| == 1)
    && (n.fraction.Some? ==> Digits(n.fraction.value))
    && (n.exponent.Some? ==> ValidExponent(n.exponent.value))
  }

  function ExponentText(e: Option<Exponent>): Text {
    match e
    case None => []
    case Some(e) => [e.letter] + ((if e.sign.Some? then [e.sign.value] else []) + e.digits)
  }

  function FractionText(fraction: Option<Text>): Text {
    if fraction.Some? then [0x2E] + fraction.value else []
  }

  function NumeralText(n: Numeral): Text {
    (if n.minus then [0x2D] else []) + (n.integer + (FractionText(n.fraction) + ExponentText(n.exponent)))
  }

  predicate Negative(e: Exponent) {
    e.sign.Some? && e.sign.value == 0x2D
  }

  /** The digits behind the point. */
  function Decimals(n: Numeral): Text {
    if n.fraction.Some? then n.fraction.value else []
  }

  /** The digits before the point and the first `k` behind it, as one number. */
  function Leading(n: Numeral, k: nat): nat
    requires ValidNumeral(n) && k <= |Decimals(n)|
  {
    N.Value(n.integer + Decimals(n)[..k])
  }

  /** How many of the first `k` digits behind the point stand behind one that is not zero, or are none. */
  function SignificantTo(n: Numeral, k: nat): nat
    requires ValidNumeral(n) && k <= |Decimals(n)|
  {
    if k == 0 then 0 else SignificantTo(n, k - 1) + if Leading(n, k) != 0 then 1 else 0
  }

  /** The digit behind the point at `k` counts for the size of the exponent: up to 53 bits, and then up to
      seventeen significant digits besides the first. */
  predicate Counts(n: Numeral, k: nat)
    requires ValidNumeral(n) && k < |Decimals(n)|
  {
    Leading(n, k) <= 9007199254740991 || |n.integer| - 1 + SignificantTo(n, k) < 17
  }

  /** The first position from `k` on where a digit does not count. */
  function CountedTo(n: Numeral, k: nat): nat
    requires ValidNumeral(n) && k <= |Decimals(n)|
    decreases |Decimals(n)| - k
  {
    if k < |Decimals(n)| && Counts(n, k) then CountedTo(n, k + 1) else k
  }

  /** What the reader refuses although it is a number: too many digits before the point, or too great an
      exponent for the digits that count. */
  predicate TooBig(n: Numeral)
    requires ValidNumeral(n)
  {
    || N.Value(n.integer[..|n.integer| - 1]) >= 17976931348623157 * Power10(291)
    || (&& n.exponent.Some? && !Negative(n.exponent.value)
        && N.Value(n.exponent.value.digits) > 308 + CountedTo(n, 0))
  }

  /** The event of a number: the narrowest type that holds an integer, and otherwise a double. */
  function NumeralEvent(n: Numeral): N.Number
    requires ValidNumeral(n)
  {
    var v := N.Value(n.integer);
    if n.fraction.Some? || n.exponent.Some? then N.Double(NumeralText(n))
    else if n.minus then
      if v <= 2147483648 then N.Int(0 - v)
      else if v <= 9223372036854775808 then N.Int64(0 - v)
      else N.Double(NumeralText(n))
    else
      if v <= 4294967295 then N.Uint(v)
      else if v <= 18446744073709551615 then N.Uint64(v)
      else N.Double(NumeralText(n))
  }

  /** What a number is in a document. */
  function NumeralValue(n: Numeral): D.Num
    requires ValidNumeral(n)
  {
    var v := N.Value(n.integer);
    if n.fraction.Some? || n.exponent.Some? then D.Real(NumeralText(n))
    else if n.minus then if v <= 9223372036854775808 then D.Integer(0 - v) else D.Real(NumeralText(n))
    else if v <= 18446744073709551615 then D.Integer(v) else D.Real(NumeralText(n))
  }

  /** What may follow a number: no digit, point or letter of an exponent. */
  predicate EndsNumeral(rest: Text) {
    rest == [] || (!(0x30 <= rest[0] <= 0x39) && rest[0] != 0x2E && rest[0] != 0x65 && rest[0] != 0x45)
  }

  /// ## Values

  /** Behind the last item or member there may be another comma, with a gap behind it; and the gap in
      empty brackets. */
  datatype Tree =
    | NullTree
    | TrueTree
    | FalseTree
    | NumberTree(numeral: Numeral)
    | StringTree(chars: seq<Char>)
    | ObjectTree(members: seq<MemberTree>, comma: bool, gap: Gap)
    | ArrayTree(items: seq<Item>, comma: bool, gap: Gap)

  datatype MemberTree =
    MemberTree(before: Gap, name: seq<Char>, beforeColon: Gap, behindColon: Gap, value: Tree, behind: Gap)

  datatype Item = Item(before: Gap, value: Tree, behind: Gap)

  /** How brackets may end: a comma needs something before it, and a gap the comma or nothing. */
  predicate ValidEnd(flags: Flags, count: nat, comma: bool, gap: Gap) {
    && ValidGap(flags, gap)
    && (comma ==> flags.trailingCommas && count > 0)
    && (count > 0 && !comma ==> gap == [])
  }

  predicate ValidTree(flags: Flags, t: Tree)
    decreases t
  {
    match t
    case NumberTree(n) => ValidNumeral(n) && !TooBig(n)
    case StringTree(cs) => ValidChars(cs)
    case ObjectTree(members, comma, gap) => ValidEnd(flags, |members|, comma, gap) && ValidMembers(flags, members)
    case ArrayTree(items, comma, gap) => ValidEnd(flags, |items|, comma, gap) && ValidItems(flags, items)
    case _ => true
  }

  predicate ValidMembers(flags: Flags, members: seq<MemberTree>)
    decreases members
  {
    members == [] ||
    (var m := members[0];
     && ValidGap(flags, m.before) && ValidChars(m.name) && ValidGap(flags, m.beforeColon)
     && ValidGap(flags, m.behindColon) && ValidTree(flags, m.value) && ValidGap(flags, m.behind)
     && ValidMembers(flags, members[1..]))
  }

  predicate ValidItems(flags: Flags, items: seq<Item>)
    decreases items
  {
    items == [] ||
    (&& ValidGap(flags, items[0].before) && ValidTree(flags, items[0].value) && ValidGap(flags, items[0].behind)
     && ValidItems(flags, items[1..]))
  }

  function TreeText(t: Tree): Text
    decreases t
  {
    match t
    case NullTree => [0x6E, 0x75, 0x6C, 0x6C]
    case TrueTree => [0x74, 0x72, 0x75, 0x65]
    case FalseTree => [0x66, 0x61, 0x6C, 0x73, 0x65]
    case NumberTree(n) => NumeralText(n)
    case StringTree(cs) => [0x22] + (CharsText(cs) + [0x22])
    case ObjectTree(members, comma, gap) => [0x7B] + MemberTexts(members, comma, gap)
    case ArrayTree(items, comma, gap) => [0x5B] + ItemTexts(items, comma, gap)
  }

  /** From behind the opening bracket, or a comma, to the closing bracket. */
  function MemberTexts(members: seq<MemberTree>, comma: bool, gap: Gap): Text
    decreases members
  {
    if members == [] then GapText(gap) + [0x7D]
    else
      var m := members[0];
      GapText(m.before) + ([0x22] + (CharsText(m.name) + ([0x22] + (GapText(m.beforeColon) + ([0x3A]
      + (GapText(m.behindColon) + (TreeText(m.value) + (GapText(m.behind)
      + if |members| == 1 && !comma then [0x7D] else [0x2C] + MemberTexts(members[1..], comma, gap)))))))))
  }

  function ItemTexts(items: seq<Item>, comma: bool, gap: Gap): Text
    decreases items
  {
    if items == [] then GapText(gap) + [0x5D]
    else
      GapText(items[0].before) + (TreeText(items[0].value) + (GapText(items[0].behind)
      + if |items| == 1 && !comma then [0x5D] else [0x2C] + ItemTexts(items[1..], comma, gap)))
  }

  /// ## What they mean

  function TreeEvents(flags: Flags, t: Tree): seq<Event>
    requires ValidTree(flags, t)
    decreases t
  {
    match t
    case NullTree => [Null]
    case TrueTree => [Bool(true)]
    case FalseTree => [Bool(false)]
    case NumberTree(n) => [Numeric(NumeralEvent(n))]
    case StringTree(cs) => [String(CharsBytes(cs))]
    case ObjectTree(members, _, _) => [StartObject] + (MembersEvents(flags, members) + [EndObject(|members|)])
    case ArrayTree(items, _, _) => [StartArray] + (ItemsEvents(flags, items) + [EndArray(|items|)])
  }

  function MembersEvents(flags: Flags, members: seq<MemberTree>): seq<Event>
    requires ValidMembers(flags, members)
    decreases members
  {
    if members == [] then []
    else
      [Key(CharsBytes(members[0].name))]
      + (TreeEvents(flags, members[0].value) + MembersEvents(flags, members[1..]))
  }

  function ItemsEvents(flags: Flags, items: seq<Item>): seq<Event>
    requires ValidItems(flags, items)
    decreases items
  {
    if items == [] then [] else TreeEvents(flags, items[0].value) + ItemsEvents(flags, items[1..])
  }

  function TreeValue(flags: Flags, t: Tree): D.Value
    requires ValidTree(flags, t)
    decreases t
  {
    match t
    case NullTree => D.NullValue
    case TrueTree => D.BoolValue(true)
    case FalseTree => D.BoolValue(false)
    case NumberTree(n) => D.NumberValue(NumeralValue(n))
    case StringTree(cs) => D.StringValue(CharsBytes(cs))
    case ObjectTree(members, _, _) => D.ObjectValue(MembersValue(flags, members))
    case ArrayTree(items, _, _) => D.ArrayValue(ItemsValue(flags, items))
  }

  function MembersValue(flags: Flags, members: seq<MemberTree>): seq<D.Member>
    requires ValidMembers(flags, members)
    decreases members
  {
    if members == [] then []
    else
      [D.Member(CharsBytes(members[0].name), TreeValue(flags, members[0].value))] + MembersValue(flags, members[1..])
  }

  function ItemsValue(flags: Flags, items: seq<Item>): seq<D.Value>
    requires ValidItems(flags, items)
    decreases items
  {
    if items == [] then [] else [TreeValue(flags, items[0].value)] + ItemsValue(flags, items[1..])
  }

  /// ## Documents

  /** A value with gaps around it; the text may end with a comment whose line is not ended. */
  datatype Document = Document(before: Gap, tree: Tree, behind: Gap, last: Option<Text>)

  predicate ValidLast(flags: Flags, last: Option<Text>) {
    last.Some? ==> flags.comments && 0 !in last.value && 0x0A !in last.value
  }

  predicate ValidDocument(flags: Flags, d: Document) {
    && ValidGap(flags, d.before) && ValidTree(flags, d.tree)
    && ValidGap(flags, d.behind) && ValidLast(flags, d.last)
  }

  function LastText(last: Option<Text>): Text {
    if last.Some? then [0x2F, 0x2F] + last.value else []
  }

  function DocumentText(d: Document): Text {
    GapText(d.before) + (TreeText(d.tree) + (GapText(d.behind) + LastText(d.last)))
  }
}
