/** The text of JSON pointers: reading, writing, and reading back what has been written. */
module PointerText {
  import opened Characters
  import opened JsonText
  import opened JsonNumbers
  import opened JsonStrings
  import opened PointerTree
  import I = Itoa
  import P = Powers
  import U = Utf
  import opened Wrappers

  datatype PointerError =
    TokenMustBeginWithSolidus | InvalidEscape | InvalidPercentEncoding | CharacterMustPercentEncode

  datatype Parsed<+T> = Done(value: T, rest: Text) | Bad(error: PointerError)

  predicate IsLetter(c: Byte) {
    'A' as int <= c <= 'Z' as int || 'a' as int <= c <= 'z' as int
  }

  /** Everything but the unreserved characters of section 2.3 of RFC 3986. */
  predicate NeedPercentEncode(c: Byte) {
    !(IsDigit(c) || IsLetter(c) || c == '-' as int || c == '.' as int || c == '_' as int || c == '~' as int)
  }

  /// ## Reading

  predicate IsTriplet(text: Text) {
    |text| >= 3 && text[0] == '%' as int && HexValue(text[1]).Some? && HexValue(text[2]).Some?
  }

  function TripletByte(text: Text): Byte
    requires IsTriplet(text)
  {
    16 * HexValue(text[1]).value + HexValue(text[2]).value
  }

  /** The bytes that the next triplets stand for, `n` at most. */
  function Triplets(text: Text, n: nat): (bytes: Text)
    ensures |bytes| <= n && 3 * |bytes| <= |text|
  {
    if n == 0 || !IsTriplet(text) then [] else [TripletByte(text)] + Triplets(text[3..], n - 1)
  }

  /** A whole UTF-8 character of triplets, and the text behind it. */
  function PercentChar(text: Text): (next: Option<(Text, Text)>)
    ensures next.Some? ==> next.value.0 != [] && 3 * |next.value.0| + |next.value.1| == |text|
  {
    var bytes := Triplets(text, 4);
    if bytes == [] then None
    else
      U.ValidateIffWellFormed(bytes);
      match U.Validate(bytes)
      case None => None
      case Some(n) => Some((bytes[..n], text[3 * n..]))
  }

  /** A character of a name, which a tilde escapes, and the text behind it. */
  function Unescaped(c: Byte, rest: Text): (next: Option<(Byte, Text)>)
    ensures next.Some? ==> |next.value.1| <= |rest|
  {
    if c != '~' as int then Some((c, rest))
    else if rest == [] then None
    else if rest[0] == '0' as int then Some(('~' as int, rest[1..]))
    else if rest[0] == '1' as int then Some(('/' as int, rest[1..]))
    else None
  }

  function Prefixed(head: Text, name: Parsed<Text>): Parsed<Text> {
    match name
    case Bad(error) => Bad(error)
    case Done(tail, rest) => Done(head + tail, rest)
  }

  /** What one turn takes from a name: some of its bytes. */
  function NextPiece(uri: bool, text: Text): (piece: Parsed<Text>)
    requires text != [] && text[0] != '/' as int
    ensures piece.Done? ==> piece.value != [] && |piece.value| + |piece.rest| <= |text|
  {
    var c := text[0];
    if uri && c == '%' as int then
      match PercentChar(text)
      case None => Bad(InvalidPercentEncoding)
      case Some((bytes, rest)) =>
        if |bytes| > 1 then Done(bytes, rest)
        else
          match Unescaped(bytes[0], rest)
          case None => Bad(InvalidEscape)
          case Some((c', rest')) => Done([c'], rest')
    else if uri && NeedPercentEncode(c) then Bad(CharacterMustPercentEncode)
    else
      match Unescaped(c, text[1..])
      case None => Bad(InvalidEscape)
      case Some((c', rest')) => Done([c'], rest')
  }

  /** A name, up to the next solidus. */
  function ReadName(uri: bool, text: Text): (name: Parsed<Text>)
    ensures name.Done? ==> |name.rest| <= |text| && (name.rest == [] || name.rest[0] == '/' as int)
    decreases |text|
  {
    if text == [] || text[0] == '/' as int then Done([], text)
    else
      match NextPiece(uri, text)
      case Bad(error) => Bad(error)
      case Done(piece, rest) => Prefixed(piece, ReadName(uri, rest))
  }

  /** The conversion of a name to an index, in 32 bits: a sum that has become smaller has overflowed. */
  function IndexOfDigits(name: Text): (n: Option<nat>)
    requires AllDigits(name)
    ensures n.Some? ==> n.value < 0x1_0000_0000
  {
    if name == [] then Some(0)
    else
      match IndexOfDigits(name[..|name| - 1])
      case None => None
      case Some(n) =>
        var m := (n * 10 + (name[|name| - 1] - '0' as int)) % 0x1_0000_0000;
        if m < n then None else Some(m)
  }

  function TokenIndex(name: Text): nat {
    if name == [] || !AllDigits(name) || (|name| > 1 && name[0] == '0' as int) then INVALID_INDEX
    else
      match IndexOfDigits(name)
      case None => INVALID_INDEX
      case Some(n) => n
  }

  function TokenOf(name: Text): Token {
    Token(name, TokenIndex(name))
  }

  function ReadTokens(uri: bool, text: Text): Parsed<Pointer>
    requires text == [] || text[0] == '/' as int
    decreases |text|
  {
    if text == [] then Done([], [])
    else
      match ReadName(uri, text[1..])
      case Bad(error) => Bad(error)
      case Done(name, rest) =>
        match ReadTokens(uri, rest)
        case Bad(error) => Bad(error)
        case Done(ts, end) => Done([TokenOf(name)] + ts, end)
  }

  /** A pointer as a string, or with a hash sign as a URI fragment. */
  function ReadPointer(source: Text): Parsed<Pointer> {
    var uri := source != [] && source[0] == '#' as int;
    var text := if uri then source[1..] else source;
    if text != [] && text[0] != '/' as int then Bad(TokenMustBeginWithSolidus) else ReadTokens(uri, text)
  }

  /// ## Writing

  function Percent(bytes: Text): (text: Text)
    ensures |text| == 3 * |bytes|
  {
    if bytes == [] then []
    else ['%' as int, HexDigit(bytes[0] / 16), HexDigit(bytes[0] % 16)] + Percent(bytes[1..])
  }

  /** What is written for the beginning of a name, and the rest of it. */
  function WrittenPiece(uri: bool, name: Text): (piece: Option<(Text, Text)>)
    requires name != []
    ensures piece.Some? ==> |piece.value.1| < |name|
  {
    var c := name[0];
    if c == '~' as int then Some((['~' as int, '0' as int], name[1..]))
    else if c == '/' as int then Some((['~' as int, '1' as int], name[1..]))
    else if uri && NeedPercentEncode(c) then
      U.ValidateIffWellFormed(name);
      match U.Validate(name)
      case None => None
      case Some(n) => Some((Percent(name[..n]), name[n..]))
    else Some(([c], name[1..]))
  }

  function WrittenName(uri: bool, name: Text): Option<Text>
    decreases |name|
  {
    if name == [] then Some([])
    else
      match WrittenPiece(uri, name)
      case None => None
      case Some((piece, rest)) => Prepend(piece, WrittenName(uri, rest))
  }

  function WrittenTokens(uri: bool, ts: Pointer): Option<Text> {
    if ts == [] then Some([])
    else
      match WrittenName(uri, ts[0].name)
      case None => None
      case Some(name) => Prepend(['/' as int] + name, WrittenTokens(uri, ts[1..]))
  }

  /** `Stringify`; `None` stands for the result `false`. */
  function Stringified(uri: bool, ts: Pointer): Option<Text> {
    Prepend(if uri then ['#' as int] else [], WrittenTokens(uri, ts))
  }

  /// ## Reading what has been written

  lemma HexByte(b: Byte)
    ensures HexValue(HexDigit(b / 16)) == Some(b / 16) && HexValue(HexDigit(b % 16)) == Some(b % 16)
    ensures 16 * (b / 16) + b % 16 == b
  {
    HexDigitValue(b / 16);
    HexDigitValue(b % 16);
  }

  lemma FirstAndMore(bytes: Text, more: Text)
    requires bytes != [] && |bytes| <= |more| + 1 && more[..|bytes| - 1] == bytes[1..]
    ensures ([bytes[0]] + more)[..|bytes|] == bytes
  {
    assert ([bytes[0]] + more)[..|bytes|] == [bytes[0]] + more[..|bytes| - 1];
    assert [bytes[0]] + bytes[1..] == bytes;
  }

  lemma FirstTriplet(bytes: Text, rest: Text, n: nat)
    requires bytes != [] && n > 0
    ensures Triplets(Percent(bytes) + rest, n) == [bytes[0]] + Triplets(Percent(bytes[1..]) + rest, n - 1)
  {
    HexByte(bytes[0]);
    BehindThree('%' as int, HexDigit(bytes[0] / 16), HexDigit(bytes[0] % 16), Percent(bytes[1..]), rest);
  }

  lemma BehindThree(a: Byte, b: Byte, c: Byte, p: Text, rest: Text)
    ensures var text := [a, b, c] + p + rest;
            |text| >= 3 && text[0] == a && text[1] == b && text[2] == c && text[3..] == p + rest
  {
  }

  lemma {:induction false} TripletsOfPercent(bytes: Text, rest: Text, n: nat)
    requires |bytes| <= n
    ensures |bytes| <= |Triplets(Percent(bytes) + rest, n)|
    ensures Triplets(Percent(bytes) + rest, n)[..|bytes|] == bytes
  {
    if bytes != [] {
      FirstTriplet(bytes, rest, n);
      TripletsOfPercent(bytes[1..], rest, n - 1);
      FirstAndMore(bytes, Triplets(Percent(bytes[1..]) + rest, n - 1));
    }
  }

  lemma PercentCharOfPercent(bytes: Text, rest: Text)
    requires U.WellFormedChar(bytes)
    ensures PercentChar(Percent(bytes) + rest) == Some((bytes, rest))
  {
    var text, n := Percent(bytes) + rest, |bytes|;
    TripletsOfPercent(bytes, rest, 4);
    var all := Triplets(text, 4);
    U.CharLengthIs(all, n);
    U.ValidateIffWellFormed(all);
    assert text[3 * n..] == rest;
  }

  /** What one turn has written is read back in one turn. */
  lemma ReadsWrittenPiece(uri: bool, name: Text, tail: Text)
    requires name != [] && WrittenPiece(uri, name).Some?
    ensures var (piece, rest) := WrittenPiece(uri, name).value;
            var text := piece + tail;
            && piece != [] && text[0] != '/' as int
            && NextPiece(uri, text) == Done(name[..|name| - |rest|], tail) && name[|name| - |rest|..] == rest
  {
    var c := name[0];
    var (piece, rest) := WrittenPiece(uri, name).value;
    var text := piece + tail;
    assert name[..1] == [c];
    if c == '~' as int || c == '/' as int {
      assert text[1..] == [piece[1]] + tail && text[1..][1..] == tail;
    } else if uri && NeedPercentEncode(c) {
      U.ValidateIffWellFormed(name);
      var n := U.Validate(name).value;
      PercentCharOfPercent(name[..n], tail);
    } else {
      assert text[1..] == tail;
    }
  }

  lemma WholeName(name: Text, n: nat)
    requires n <= |name|
    ensures name[..n] + name[n..] == name
  {
  }

  lemma {:induction false} ReadsWrittenName(uri: bool, name: Text, rest: Text)
    requires WrittenName(uri, name).Some? && (rest == [] || rest[0] == '/' as int)
    ensures ReadName(uri, WrittenName(uri, name).value + rest) == Done(name, rest)
    decreases |name|
  {
    if name == [] {
      assert [] + rest == rest;
    } else {
      var (piece, name') := WrittenPiece(uri, name).value;
      var written := WrittenName(uri, name').value;
      ReadsWrittenName(uri, name', rest);
      ReadsWrittenPiece(uri, name, written + rest);
      Regrouped(piece, written, rest);
      WholeName(name, |name| - |name'|);
    }
  }

  function Tokens(names: seq<Text>): (ts: Pointer)
    ensures |ts| == |names| && forall i :: 0 <= i < |names| ==> ts[i] == TokenOf(names[i])
  {
    seq(|names|, i requires 0 <= i < |names| => TokenOf(names[i]))
  }

  lemma BehindSlash(text: Text, name: Text, rest: Text)
    ensures text == ['/' as int] + name + rest ==> text != [] && text[0] == '/' as int && text[1..] == name + rest
    ensures text == ['/' as int] + (name + rest) ==> text != [] && text[0] == '/' as int && text[1..] == name + rest
  {
    assert ['/' as int] + name + rest == ['/' as int] + (name + rest);
    assert (['/' as int] + (name + rest))[1..] == name + rest;
  }

  lemma {:induction false} ReadsWrittenTokens(uri: bool, names: seq<Text>)
    requires WrittenTokens(uri, Tokens(names)).Some?
    ensures var text := WrittenTokens(uri, Tokens(names)).value;
            (text == [] || text[0] == '/' as int) && ReadTokens(uri, text) == Done(Tokens(names), [])
    decreases |names|
  {
    var ts := Tokens(names);
    if names != [] {
      assert ts[1..] == Tokens(names[1..]);
      ReadsWrittenTokens(uri, names[1..]);
      var name, rest := WrittenName(uri, names[0]).value, WrittenTokens(uri, ts[1..]).value;
      var text := WrittenTokens(uri, ts).value;
      BehindSlash(text, name, rest);
      ReadsWrittenName(uri, names[0], rest);
      assert [TokenOf(names[0])] + ts[1..] == ts;
    }
  }

  /** A stringified pointer is read back with the same names, in both representations. */
  lemma ReadsStringified(uri: bool, names: seq<Text>)
    requires Stringified(uri, Tokens(names)).Some?
    ensures ReadPointer(Stringified(uri, Tokens(names)).value) == Done(Tokens(names), [])
  {
    var text := WrittenTokens(uri, Tokens(names)).value;
    ReadsWrittenTokens(uri, names);
    if uri {
      assert (['#' as int] + text)[1..] == text;
    } else {
      assert [] + text == text;
    }
  }

  lemma {:induction false} WrittenNameIff(uri: bool, name: Text)
    ensures WrittenName(uri, name).Some? <==> !uri || U.WellFormed(name)
    decreases |name|
  {
    if name != [] {
      U.WellFormedStep(name);
      U.ValidateIffWellFormed(name);
      var piece := WrittenPiece(uri, name);
      if piece.Some? {
        WrittenNameIff(uri, piece.value.1);
      }
    }
  }

  /** As a string every pointer can be written, as a URI fragment those whose names are well-formed UTF-8. */
  lemma {:induction false} StringifiedIff(uri: bool, names: seq<Text>)
    ensures Stringified(uri, Tokens(names)).Some? <==> !uri || forall name :: name in names ==> U.WellFormed(name)
    decreases |names|
  {
    if names != [] {
      assert Tokens(names)[1..] == Tokens(names[1..]);
      WrittenNameIff(uri, names[0]);
      StringifiedIff(uri, names[1..]);
      assert names == [names[0]] + names[1..];
    }
  }

  /// ## Indices

  /** Up to 32 bits, the index is the value of the digits. */
  lemma {:induction false} IndexIsValue(name: Text)
    requires AllDigits(name) && Value(name) < 0x1_0000_0000
    ensures IndexOfDigits(name) == Some(Value(name))
  {
    if name != [] {
      IndexIsValue(name[..|name| - 1]);
    }
  }

  lemma WrapsAround(x: nat, k: nat)
    ensures (x + k * 0x1_0000_0000) % 0x1_0000_0000 == x % 0x1_0000_0000
  {
  }

  lemma Laps(v: nat) returns (q: nat, r: nat)
    ensures v == q * 0x1_0000_0000 + r && r == v % 0x1_0000_0000
  {
    q, r := v / 0x1_0000_0000, v % 0x1_0000_0000;
  }

  lemma RemainderMore(v: nat, d: nat)
    ensures (v * 10 + d) % 0x1_0000_0000 == (v % 0x1_0000_0000 * 10 + d) % 0x1_0000_0000
  {
    var q, r := Laps(v);
    WrapsAround(r * 10 + d, q * 10);
  }

  /** A conversion that notices no overflow gives the remainder of the value. */
  lemma {:induction false} IndexIsRemainder(name: Text)
    requires AllDigits(name)
    ensures IndexOfDigits(name).Some? ==> IndexOfDigits(name).value == Value(name) % 0x1_0000_0000
  {
    if name != [] {
      var n := |name| - 1;
      IndexIsRemainder(name[..n]);
      RemainderMore(Value(name[..n]), name[n] - '0' as int);
    }
  }

  /** A numeral is an index, and the right one, if and only if its value is below 2^32 - 1: that value
      is the mark of a token that is no index, and larger values are marked so or wrap around. */
  lemma RightIndexIff(name: Text)
    requires name != [] && AllDigits(name) && (|name| > 1 ==> name[0] != '0' as int)
    ensures TokenIndex(name) != INVALID_INDEX && TokenIndex(name) == Value(name) <==> Value(name) < INVALID_INDEX
    ensures TokenIndex(name) == INVALID_INDEX || TokenIndex(name) == Value(name) % 0x1_0000_0000
  {
    IndexIsRemainder(name);
    if Value(name) < 0x1_0000_0000 {
      IndexIsValue(name);
    }
  }

  /** Beyond, not every overflow is noticed. */
  lemma IndexWraps()
    ensures var name := seq(10, i => '9' as int);
            AllDigits(name) && Value(name) == 9999999999 && TokenIndex(name) == 1410065407
  {
    var nines := seq(9, i => '9' as int);
    var name := seq(10, i => '9' as int);
    NinesValue(9);
    IndexIsValue(nines);
    assert name[..9] == nines;
  }

  lemma {:induction false} NinesValue(n: nat)
    ensures var nines := seq(n, i => '9' as int); AllDigits(nines) && Value(nines) == P.Power10(n) - 1
  {
    if n > 0 {
      NinesValue(n - 1);
      assert seq(n, i => '9' as int)[..n - 1] == seq(n - 1, i => '9' as int);
    }
  }

  /** One digit more, behind a numeral. */
  lemma CanonicalMore(v: nat, d: nat)
    requires v > 0 && d < 10
    ensures I.Decimal(10 * v + d) == I.Decimal(v) + [I.Digit(d)]
  {
    assert (10 * v + d) / 10 == v && (10 * v + d) % 10 == d;
  }

  lemma {:induction false} LastDigit(name: Text)
    requires name != [] && AllDigits(name)
    ensures var n := |name| - 1; var d := name[n] - '0' as int;
            && AllDigits(name[..n]) && 0 <= d < 10 && Value(name) == 10 * Value(name[..n]) + d
            && name == name[..n] + [I.Digit(d)]
  {
    assert name == name[..|name| - 1] + [name[|name| - 1]];
  }

  /** Digits without a leading zero are the decimal of their value. */
  lemma {:induction false} Canonical(name: Text)
    requires name != [] && AllDigits(name) && (|name| > 1 ==> name[0] != '0' as int)
    ensures name == I.Decimal(Value(name))
    ensures name[0] != '0' as int ==> Value(name) > 0
  {
    var n := |name| - 1;
    LastDigit(name);
    if n == 0 {
      assert name[..0] == [];
    } else {
      Canonical(name[..n]);
      CanonicalMore(Value(name[..n]), name[n] - '0' as int);
    }
  }

  /** With names that stand for at most 32 bits, tokens with the same index have the same name. */
  lemma TokensConsistent(names: seq<Text>, others: seq<Text>)
    requires forall name :: name in names + others && AllDigits(name) ==> Value(name) < 0x1_0000_0000
    ensures Consistent(Tokens(names), Tokens(others)) && ValidTokens(Tokens(names))
  {
    var ts, us := Tokens(names), Tokens(others);
    forall i, j | 0 <= i < |ts| && 0 <= j < |us|
      ensures (ts[i].name == us[j].name ==> ts[i].index == us[j].index)
      ensures (ts[i].index == us[j].index < INVALID_INDEX ==> ts[i].name == us[j].name)
    {
      assert names[i] in names + others && others[j] in names + others;
      IndexNames(names[i]);
      IndexNames(others[j]);
    }
    forall i | 0 <= i < |ts|
      ensures ts[i].index <= INVALID_INDEX && (IsDash(ts[i]) ==> ts[i].index == INVALID_INDEX)
    {
      assert names[i] in names + others;
      IndexNames(names[i]);
    }
  }

  lemma IndexNames(name: Text)
    requires AllDigits(name) ==> Value(name) < 0x1_0000_0000
    ensures TokenIndex(name) < INVALID_INDEX ==> name == I.Decimal(TokenIndex(name))
    ensures TokenIndex(name) <= INVALID_INDEX && (name == ['-' as int] ==> TokenIndex(name) == INVALID_INDEX)
  {
    if name != [] && AllDigits(name) && !(|name| > 1 && name[0] == '0' as int) {
      IndexIsValue(name);
      Canonical(name);
    }
    if name == ['-' as int] { assert !IsDigit(name[0]); }
  }

  /// ## The loops

  /** The tokens that have been read, and what is read behind them. */
  function Behind(ts: Pointer, parsed: Parsed<Pointer>): Parsed<Pointer> {
    match parsed
    case Bad(error) => Bad(error)
    case Done(more, rest) => Done(ts + more, rest)
  }

  lemma BehindMore(ts: Pointer, t: Token, parsed: Parsed<Pointer>)
    ensures Behind(ts + [t], parsed) == Behind(ts, Behind([t], parsed))
  {
    if parsed.Done? { assert (ts + [t]) + parsed.value == ts + ([t] + parsed.value); }
  }

  lemma PrefixedMore(a: Text, b: Text, name: Parsed<Text>)
    ensures Prefixed(a + b, name) == Prefixed(a, Prefixed(b, name))
  {
    if name.Done? { Regrouped(a, b, name.value); }
  }

  /** Writes bytes behind the cursor. */
  method Write(buffer: array<Byte>, at: nat, bytes: Text, ghost start: nat) returns (end: nat)
    requires start <= at && at + |bytes| <= buffer.Length
    modifies buffer
    ensures end == at + |bytes| && buffer[start..end] == old(buffer[start..at]) + bytes
  {
    for k := 0 to |bytes|
      invariant buffer[start..at + k] == old(buffer[start..at]) + bytes[..k]
    {
      buffer[at + k] := bytes[k];
    }
    end := at + |bytes|;
  }

  /** The character that `c`, just taken, stands for: itself, or the one that it escapes. */
  method TakeEscaped(c: Byte, source: Text, i: nat) returns (c': Byte, i': nat, ok: bool)
    requires i <= |source|
    ensures match Unescaped(c, source[i..])
            case None => !ok
            case Some((d, rest)) => ok && c' == d && i <= i' <= |source| && source[i'..] == rest
  {
    c', i', ok := c, i, true;
    if c == '~' as int {
      if i == |source| {
        return c, i, false;
      }
      assert source[i..][0] == source[i] && source[i..][1..] == source[i + 1..];
      c' := source[i];
      if c' == '0' as int {
        c' := '~' as int;
      } else if c' == '1' as int {
        c' := '/' as int;
      } else {
        return c, i, false;
      }
      i' := i + 1;
    }
  }

  lemma {:induction false} TripletAt(text: Text, n: nat, k: nat)
    requires k < n && k <= |Triplets(text, n)|
    ensures |Triplets(text, n)| > k <==> IsTriplet(text[3 * k..])
    ensures |Triplets(text, n)| > k ==> Triplets(text, n)[k] == TripletByte(text[3 * k..])
  {
    if k > 0 {
      TripletAt(text[3..], n - 1, k - 1);
      assert text[3..][3 * (k - 1)..] == text[3 * k..];
    } else {
      assert text[0..] == text;
    }
  }

  /** Takes the byte of a triplet; zero stands for one that is malformed. */
  method TakePercent(source: Text, i: nat) returns (c: Byte, i': nat, ok: bool)
    requires i <= |source|
    ensures ok == IsTriplet(source[i..]) && i <= i' <= |source|
    ensures if ok then i' == i + 3 && c == TripletByte(source[i..]) else c == 0
  {
    if i + 3 > |source| || source[i] != '%' as int { return 0, i, false; }
    var high := HexValue(source[i + 1]);
    if high.None? { return 0, i + 1, false; }
    var low := HexValue(source[i + 2]);
    if low.None? { return 0, i + 2, false; }
    return 16 * high.value + low.value, i + 3, true;
  }

  /** What has been copied of a character of triplets: `valid` tells whether all of them were well-formed. */
  predicate Copied(text: Text, copied: Text, count: nat, valid: bool) {
    var bytes := Triplets(text, 4);
    && copied != [] && (bytes != [] ==> count == U.CharLength(bytes[0]))
    && (valid ==> copied <= bytes)
    && (!valid ==> bytes == [] || |bytes| < count)
  }

  lemma OneMoreCopied(text: Text, copied: Text, count: nat, c: Byte)
    requires Copied(text, copied, count, true) && |copied| < count <= 4 && 3 * |copied| <= |text|
    requires IsTriplet(text[3 * |copied|..]) ==> c == TripletByte(text[3 * |copied|..])
    ensures Copied(text, copied + [c], count, IsTriplet(text[3 * |copied|..]))
  {
    TripletAt(text, 4, |copied|);
  }

  /** Takes a triplet, and puts its byte behind those copied so far. */
  method CopyPercent(source: Text, i: nat, k: nat, buffer: array<Byte>, name: nat, len: nat, count: nat, valid: bool)
    returns (k': nat, valid': bool)
    requires i <= k <= |source| && name + len < buffer.Length && 0 < len < count <= 4
    requires valid ==> k == i + 3 * len
    requires Copied(source[i..], buffer[name..name + len], count, valid)
    modifies buffer
    ensures k <= k' <= |source| && (valid' ==> k' == i + 3 * (len + 1))
    ensures buffer[..name] == old(buffer[..name]) && buffer[name + len + 1..] == old(buffer[name + len + 1..])
    ensures Copied(source[i..], buffer[name..name + len + 1], count, valid')
  {
    ghost var before := buffer[name..name + len];
    var c, ok;
    c, k', ok := TakePercent(source, k);
    buffer[name + len] := c;
    valid' := valid && ok;
    assert buffer[name..name + len + 1] == before + [c];
    if valid {
      assert source[i..][3 * len..] == source[k..];
      OneMoreCopied(source[i..], before, count, c);
    }
  }

  /** Takes the first triplet, which tells how many there are to be. */
  method CopyFirst(source: Text, i: nat, buffer: array<Byte>, name: nat) returns (count: nat, i': nat, valid: bool)
    requires name < i < |source| && buffer.Length == |source|
    modifies buffer
    ensures i <= i' <= |source| && (valid ==> i' == i + 3) && count <= 4 && (count > 1 ==> name + 4 <= |source|)
    ensures buffer[..name] == old(buffer[..name]) && buffer[name + 1..] == old(buffer[name + 1..])
    ensures Copied(source[i..], buffer[name..name + 1], count, valid)
  {
    ghost var text := source[i..];
    TripletAt(text, 4, 0);
    assert text[0..] == text;
    var c;
    c, i', valid := TakePercent(source, i);
    buffer[name] := c;
    count := U.CharLength(c);
    assert buffer[name..name + 1] == [c];
    assert valid ==> Triplets(text, 4)[..1] == [c];
  }

  /** Copies the bytes of the next character to the buffer, as many as the first of them asks for, also
      when the sequence turns out to be malformed; they fit in the buffer in any case. */
  method CopyPercentChar(source: Text, i: nat, buffer: array<Byte>, name: nat)
    returns (len: nat, i': nat, valid: bool)
    requires name < i < |source| && buffer.Length == |source|
    modifies buffer
    ensures 1 <= len <= 4 && name + len <= buffer.Length
    ensures buffer[..name] == old(buffer[..name]) && buffer[name + len..] == old(buffer[name + len..])
    ensures valid == PercentChar(source[i..]).Some?
    ensures valid ==>
              && i' == i + 3 * len <= |source|
              && PercentChar(source[i..]) == Some((buffer[name..name + len], source[i'..]))
  {
    var count;
    count, i', valid := CopyFirst(source, i, buffer, name);
    len := 1;
    while len < count
      invariant i <= i' <= |source| && (valid ==> i' == i + 3 * len)
      invariant len == 1 || 0 < len <= count
      invariant buffer[..name] == old(buffer[..name]) && buffer[name + len..] == old(buffer[name + len..])
      invariant Copied(source[i..], buffer[name..name + len], count, valid)
    {
      i', valid := CopyPercent(source, i, i', buffer, name, len, count, valid);
      len := len + 1;
    }
    CopiedChar(source[i..], buffer[name..name + len], count, valid);
    valid := valid && U.Validate(buffer[name..name + len]).Some?;
    if valid { assert source[i..][3 * len..] == source[i'..]; }
  }

  /** As many triplets as the first asks for decide. */
  lemma CopiedChar(text: Text, copied: Text, count: nat, valid: bool)
    requires Copied(text, copied, count, valid) && |copied| == if count == 0 then 1 else count
    ensures PercentChar(text)
            == if valid && U.Validate(copied).Some? then Some((copied, text[3 * |copied|..])) else None
  {
    var bytes := Triplets(text, 4);
    if bytes != [] { U.ValidateIffWellFormed(bytes); }
    if valid {
      U.ValidateIffWellFormed(copied);
      assert copied == bytes[..|copied|] && copied[..|copied|] == copied;
    }
  }

  /** The turn of the loop for a percent triplet, of a URI fragment. */
  method ParsePercent(source: Text, i: nat, buffer: array<Byte>, start: nat, name: nat)
    returns (name': nat, i': nat, error: Option<PointerError>)
    requires start <= name < i < |source| && source[i] == '%' as int && buffer.Length == |source|
    modifies buffer
    ensures match NextPiece(true, source[i..])
            case Bad(e) => error == Some(e)
            case Done(piece, rest) =>
              && error == None && i < i' <= |source| && source[i'..] == rest
              && name <= name' < i' && buffer[start..name'] == old(buffer[start..name]) + piece
  {
    ghost var before := buffer[start..name];
    var len, valid;
    len, i', valid := CopyPercentChar(source, i, buffer, name);
    assert buffer[start..name] == buffer[..name][start..] == before;
    name', error := name, None;
    if !valid {
      return name, i, Some(InvalidPercentEncoding);
    }
    assert buffer[start..name + len] == buffer[start..name] + buffer[name..name + len];
    name' := name + len;
    if len == 1 {
      var c, ok;
      c, i', ok := TakeEscaped(buffer[name], source, i');
      if !ok {
        return name, i, Some(InvalidEscape);
      }
      buffer[name] := c;
    }
  }

  /** One turn of the loop over a name: takes a piece from position `i`, and appends it to the buffer. */
  method ParsePiece(uri: bool, source: Text, i: nat, buffer: array<Byte>, start: nat, name: nat)
    returns (name': nat, i': nat, error: Option<PointerError>)
    requires start <= name < i < |source| && source[i] != '/' as int && buffer.Length == |source|
    modifies buffer
    ensures match NextPiece(uri, source[i..])
            case Bad(e) => error == Some(e)
            case Done(piece, rest) =>
              && error == None && i < i' <= |source| && source[i'..] == rest
              && name <= name' < i' && buffer[start..name'] == old(buffer[start..name]) + piece
  {
    name', i', error := name, i, None;
    var c := source[i];
    if uri && c == '%' as int {
      name', i', error := ParsePercent(source, i, buffer, start, name);
      return;
    }
    if uri && NeedPercentEncode(c) {
      return name, i, Some(CharacterMustPercentEncode);
    }
    assert source[i..][1..] == source[i + 1..];
    var ok;
    c, i', ok := TakeEscaped(c, source, i + 1);
    if !ok {
      return name, i, Some(InvalidEscape);
    }
    name' := Write(buffer, name, [c], start);
  }

  /** The loop over a name. */
  method ParseName(uri: bool, source: Text, begin: nat, buffer: array<Byte>, start: nat)
    returns (name: nat, i: nat, error: Option<PointerError>)
    requires start < begin <= |source| && buffer.Length == |source|
    modifies buffer
    ensures match ReadName(uri, source[begin..])
            case Bad(e) => error == Some(e)
            case Done(n, rest) =>
              && error == None && begin <= i <= |source| && source[i..] == rest
              && start <= name < i && buffer[start..name] == n
  {
    name, i, error := start, begin, None;
    assert buffer[start..start] == [];
    PrefixedNothing(ReadName(uri, source[begin..]));
    while i < |source| && source[i] != '/' as int
      invariant begin <= i <= |source| && start <= name < i && error == None
      invariant ReadName(uri, source[begin..]) == Prefixed(buffer[start..name], ReadName(uri, source[i..]))
      decreases |source| - i
    {
      ghost var text, before := source[i..], buffer[start..name];
      var name', i', error' := ParsePiece(uri, source, i, buffer, start, name);
      if error'.Some? { return name, i, error'; }
      ghost var piece := NextPiece(uri, text);
      PrefixedMore(before, piece.value, ReadName(uri, piece.rest));
      name, i := name', i';
    }
    assert buffer[start..name] + [] == buffer[start..name];
  }

  lemma PrefixedNothing(name: Parsed<Text>)
    ensures Prefixed([], name) == name
  {
    if name.Done? { assert [] + name.value == name.value; }
  }

  /** One token has been read, from the solidus at `begin` to `i`. */
  lemma TokenRead(uri: bool, source: Text, begin: nat, i: nat, token: Token)
    requires begin < |source| && source[begin] == '/' as int && i <= |source|
    requires var name := ReadName(uri, source[begin + 1..]);
             name.Done? && token == TokenOf(name.value) && source[i..] == name.rest
    ensures ReadTokens(uri, source[begin..]) == Behind([token], ReadTokens(uri, source[i..]))
  {
    assert source[begin..][1..] == source[begin + 1..];
  }

  /** One turn of the outer loop: the token whose solidus is at `begin`; its name, with a zero behind it,
      goes to the buffer from `start` on. */
  method ParseToken(uri: bool, source: Text, begin: nat, buffer: array<Byte>, start: nat)
    returns (token: Token, name: nat, i: nat, error: Option<PointerError>)
    requires start <= begin < |source| && source[begin] == '/' as int && buffer.Length == |source|
    modifies buffer
    ensures match error
            case Some(e) => ReadTokens(uri, source[begin..]) == Bad(e)
            case None =>
              && begin < i <= |source| && name <= i && (i < |source| ==> source[i] == '/' as int)
              && ReadTokens(uri, source[begin..]) == Behind([token], ReadTokens(uri, source[i..]))
  {
    assert source[begin..][1..] == source[begin + 1..];
    name, i, error := ParseName(uri, source, begin + 1, buffer, start);
    if error.Some? {
      token := TokenOf([]);
      return;
    }
    token := TokenOf(buffer[start..name]);
    buffer[name] := 0;
    name := name + 1;
    TokenRead(uri, source, begin, i, token);
  }

  /** Reads a pointer. The names go to a buffer of the length of the source, each with a zero behind
      it, and never beyond it. */
  method Parse(source: Text) returns (parsed: Parsed<Pointer>)
    ensures parsed == ReadPointer(source)
  {
    var nameBuffer := new Byte[|source|];
    var tokens: Pointer := [];
    var name, i := 0, 0;
    var uri := source != [] && source[0] == '#' as int;
    if uri { i := 1; }
    if i != |source| && source[i] != '/' as int { return Bad(TokenMustBeginWithSolidus); }
    assert source[0..] == source;
    ghost var goal := ReadTokens(uri, source[i..]);
    BehindNothing(goal);
    while i < |source|
      invariant 0 <= name <= i <= |source|
      invariant i < |source| ==> source[i] == '/' as int
      invariant goal == Behind(tokens, ReadTokens(uri, source[i..]))
      decreases |source| - i
    {
      var token, error;
      token, name, i, error := ParseToken(uri, source, i, nameBuffer, name);
      if error.Some? {
        return Bad(error.value);
      }
      BehindMore(tokens, token, ReadTokens(uri, source[i..]));
      tokens := tokens + [token];
    }
    assert source[i..] == [] && tokens + [] == tokens;
    parsed := Done(tokens, []);
  }

  lemma BehindNothing(parsed: Parsed<Pointer>)
    ensures Behind([], parsed) == parsed
  {
    if parsed.Done? { assert [] + parsed.value == parsed.value; }
  }

  method Stringify(uri: bool, ts: Pointer) returns (written: Option<Text>)
    ensures written == Stringified(uri, ts)
  {
    var output: Text := if uri then ['#' as int] else [];
    assert ts[0..] == ts;
    for k := 0 to |ts|
      invariant Stringified(uri, ts) == Prepend(output, WrittenTokens(uri, ts[k..]))
    {
      assert ts[k..][1..] == ts[k + 1..];
      var name := StringifyName(uri, ts[k].name);
      if name.None? { return None; }
      PrependPrepend(output, ['/' as int] + name.value, WrittenTokens(uri, ts[k + 1..]));
      output := output + (['/' as int] + name.value);
    }
    assert output + [] == output;
    written := Some(output);
  }

  method StringifyName(uri: bool, name: Text) returns (written: Option<Text>)
    ensures written == WrittenName(uri, name)
  {
    var rest, output: Text := name, [];
    assert Prepend([], WrittenName(uri, name)) == WrittenName(uri, name) by {
      if WrittenName(uri, name).Some? { assert [] + WrittenName(uri, name).value == WrittenName(uri, name).value; }
    }
    while rest != []
      invariant WrittenName(uri, name) == Prepend(output, WrittenName(uri, rest))
      decreases |rest|
    {
      var piece := WrittenPiece(uri, rest);
      if piece == None { return None; }
      PrependPrepend(output, piece.value.0, WrittenName(uri, piece.value.1));
      output, rest := output + piece.value.0, piece.value.1;
    }
    assert output + [] == output;
    written := Some(output);
  }
}
