/** JSON strings: writing with escapes, and reading them back. */
module JsonStrings {
  import opened JsonText
  import opened Utf
  import opened Wrappers

  /** The escape table of the writer: the letter behind the backslash. */
  function Escape(c: Byte): Option<Byte> {
    if c == 0x08 then Some('b' as int)
    else if c == 0x09 then Some('t' as int)
    else if c == 0x0A then Some('n' as int)
    else if c == 0x0C then Some('f' as int)
    else if c == 0x0D then Some('r' as int)
    else if c < 0x20 then Some('u' as int)
    else if c == '\"' as int || c == '\\' as int then Some(c)
    else None
  }

  function HexDigit(d: nat): (c: Byte)
    requires d < 16
    ensures c < 0x80
  {
    if d < 10 then '0' as int + d else 'A' as int + (d - 10)
  }

  /** Four upper-case hexadecimal digits. */
  function Hex4(u: nat): (s: Text)
    requires u < 0x10000
    ensures |s| == 4
  {
    [HexDigit(u / 4096), HexDigit(u / 256 % 16), HexDigit(u / 16 % 16), HexDigit(u % 16)]
  }

  const UNICODE_ESCAPE: Text := ['\\' as int, 'u' as int]

  /** A code point in ASCII: `\uXXXX`, or a surrogate pair of them. */
  function UnicodeEscape(c: nat): Text
    requires IsScalar(c)
  {
    if c <= 0xFFFF then UNICODE_ESCAPE + Hex4(c)
    else
      var s := c - 0x10000;
      UNICODE_ESCAPE + Hex4(0xD800 + s / 0x400) + (UNICODE_ESCAPE + Hex4(0xDC00 + s % 0x400))
  }

  /** An ASCII byte, escaped if the table says so. */
  function EscapedByte(c: Byte): Text {
    match Escape(c)
    case None => [c]
    case Some(letter) =>
      if letter == 'u' as int then
        UNICODE_ESCAPE + ['0' as int, '0' as int, HexDigit(c / 16), HexDigit(c % 16)]
      else ['\\' as int, letter]
  }

  /** One turn of the writer: what is written for the beginning of the string, and the rest of it.
      With an ASCII target every code point beyond it is escaped, which fails on malformed UTF-8;
      with a UTF-8 target the bytes are copied. */
  function WrittenHead(ascii: bool, s: Text): (head: Option<(Text, Text)>)
    requires s != []
    ensures head.Some? ==> |head.value.1| < |s|
  {
    if ascii && s[0] >= 0x80 then
      match Decode(s)
      case None => None
      case Some((c, rest)) =>
        DecodeProgress(s);
        Some((UnicodeEscape(c), rest))
    else Some((EscapedByte(s[0]), s[1..]))
  }

  /** What is written between the quotes. */
  function Written(ascii: bool, s: Text): Option<Text>
    decreases |s|
  {
    if s == [] then Some([])
    else
      match WrittenHead(ascii, s)
      case None => None
      case Some((head, rest)) => Prepend(head, Written(ascii, rest))
  }

  function Prepend(head: Text, tail: Option<Text>): Option<Text> {
    match tail
    case None => None
    case Some(t) => Some(head + t)
  }

  /// ## Reading

  /** The escape table of the reader. */
  function Unescape(e: Byte): Option<Byte> {
    if e == '\"' as int || e == '/' as int || e == '\\' as int then Some(e)
    else if e == 'b' as int then Some(0x08)
    else if e == 'f' as int then Some(0x0C)
    else if e == 'n' as int then Some(0x0A)
    else if e == 'r' as int then Some(0x0D)
    else if e == 't' as int then Some(0x09)
    else None
  }

  function HexValue(c: Byte): (d: Option<nat>)
    ensures d.Some? ==> d.value < 16
  {
    if '0' as int <= c <= '9' as int then Some(c - '0' as int)
    else if 'A' as int <= c <= 'F' as int then Some(c - ('A' as int - 10))
    else if 'a' as int <= c <= 'f' as int then Some(c - ('a' as int - 10))
    else None
  }

  /** The number that the first `n` bytes are in hexadecimal. */
  function HexPrefix(text: Text, n: nat): (u: Option<nat>)
    ensures u.Some? ==> n <= |text| && (n == 4 ==> u.value < 0x10000) && (n == 3 ==> u.value < 0x1000)
                        && (n == 2 ==> u.value < 0x100) && (n == 1 ==> u.value < 0x10) && (n == 0 ==> u.value == 0)
  {
    if n == 0 then Some(0)
    else
      match HexPrefix(text, n - 1)
      case None => None
      case Some(v) =>
        if n <= |text| && HexValue(text[n - 1]).Some? then Some(16 * v + HexValue(text[n - 1]).value) else None
  }

  /** Four hexadecimal digits. */
  function ReadHex4(text: Text): (hex: Lexed<nat>)
    ensures hex.Lexed? ==> hex.value < 0x10000 && |text| >= 4 && hex.rest == text[4..]
  {
    match HexPrefix(text, 4)
    case None => Failed(StringUnicodeEscapeInvalidHex)
    case Some(u) => Lexed(u, text[4..])
  }

  /** The code point behind `\u`. */
  function ReadUnicode(text: Text): (point: Lexed<nat>)
    ensures point.Lexed? ==> point.value <= 0x10FFFF && |point.rest| < |text|
  {
    match ReadHex4(text)
    case Failed(code) => Failed(code)
    case Lexed(high, rest) =>
      if !(0xD800 <= high <= 0xDBFF) then Lexed(high, rest)
      else if |rest| < 2 || rest[..2] != UNICODE_ESCAPE then Failed(StringUnicodeSurrogateInvalid)
      else
        match ReadHex4(rest[2..])
        case Failed(code) => Failed(code)
        case Lexed(low, rest') =>
          if !(0xDC00 <= low <= 0xDFFF) then Failed(StringUnicodeSurrogateInvalid)
          else Lexed((high - 0xD800) * 0x400 + (low - 0xDC00) + 0x10000, rest')
  }

  function Before(head: Text, tail: Lexed<Text>): Lexed<Text> {
    match tail
    case Failed(code) => Failed(code)
    case Lexed(s, rest) => Lexed(head + s, rest)
  }

  /** The string that the text behind an opening quote begins with. */
  function ReadString(text: Text): (s: Lexed<Text>)
    ensures s.Lexed? ==> |s.rest| < |text|
    decreases |text|
  {
    if text == [] then Failed(StringMissQuotationMark)
    else
      var c, rest := text[0], text[1..];
      if c == '\\' as int then
        var e := Peek(rest);
        if Unescape(e).Some? then Before([Unescape(e).value], ReadString(rest[1..]))
        else if e == 'u' as int then
          match ReadUnicode(rest[1..])
          case Failed(code) => Failed(code)
          case Lexed(point, rest') => Before(Encode(point), ReadString(rest'))
        else Failed(StringEscapeInvalid)
      else if c == '\"' as int then Lexed([], rest)
      else if c < 0x20 then Failed(if c == 0 then StringMissQuotationMark else StringInvalidEncoding)
      else Before([c], ReadString(rest))
  }

  /// ## The loops

  lemma {:induction false} HexPrefixFails(text: Text, n: nat, m: nat)
    requires n <= m && HexPrefix(text, n) == None
    ensures HexPrefix(text, m) == None
  {
    if n < m {
      HexPrefixFails(text, n, m - 1);
    }
  }

  /** Accumulates four digits, each added as a character and then corrected. */
  method ParseHex4(text: Text) returns (codepoint: Lexed<nat>)
    ensures codepoint == ReadHex4(text)
  {
    var value := 0;
    for i := 0 to 4
      invariant HexPrefix(text, i) == Some(value)
    {
      var c := if i < |text| then text[i] else 0;
      var sum := value * 16 + c;
      if '0' as int <= c <= '9' as int {
        value := sum - '0' as int;
      } else if 'A' as int <= c <= 'F' as int {
        value := sum - ('A' as int - 10);
      } else if 'a' as int <= c <= 'f' as int {
        value := sum - ('a' as int - 10);
      } else {
        HexPrefixFails(text, i + 1, 4);
        return Failed(StringUnicodeEscapeInvalidHex);
      }
    }
    codepoint := Lexed(value, text[4..]);
  }

  method ParseUnicode(text: Text) returns (codepoint: Lexed<nat>)
    ensures codepoint == ReadUnicode(text)
  {
    codepoint := ParseHex4(text);
    if codepoint.Lexed? && 0xD800 <= codepoint.value <= 0xDBFF {
      var rest := codepoint.rest;
      if !(|rest| >= 1 && rest[0] == '\\' as int) || !(|rest| >= 2 && rest[1] == 'u' as int) {
        return Failed(StringUnicodeSurrogateInvalid);
      }
      assert rest[..2] == UNICODE_ESCAPE;
      var low := ParseHex4(rest[2..]);
      if low.Failed? { return low; }
      if low.value < 0xDC00 || low.value > 0xDFFF { return Failed(StringUnicodeSurrogateInvalid); }
      codepoint := Lexed((codepoint.value - 0xD800) * 0x400 + (low.value - 0xDC00) + 0x10000, low.rest);
    }
  }

  lemma BeforeBefore(a: Text, b: Text, tail: Lexed<Text>)
    ensures Before(a, Before(b, tail)) == Before(a + b, tail)
  {
    if tail.Lexed? {
      assert a + (b + tail.value) == (a + b) + tail.value;
    }
  }

  /** Reads the text behind an opening quote into an output stream. */
  method ParseStringToStream(text: Text) returns (s: Lexed<Text>)
    ensures s == ReadString(text)
  {
    var input, output: Text := text, [];
    assert ReadString(text) == Before([], ReadString(text)) by {
      if ReadString(text).Lexed? { assert [] + ReadString(text).value == ReadString(text).value; }
    }
    while true
      invariant ReadString(text) == Before(output, ReadString(input))
      decreases |input|
    {
      ghost var done := output;
      var c := Peek(input);
      if c == '\\' as int {
        var e := Peek(input[1..]);
        if Unescape(e).Some? {
          BeforeBefore(output, [Unescape(e).value], ReadString(input[1..][1..]));
          output, input := output + [Unescape(e).value], input[1..][1..];
        } else if e == 'u' as int {
          var point := ParseUnicode(input[1..][1..]);
          if point.Failed? { return Failed(point.code); }
          BeforeBefore(output, Encode(point.value), ReadString(point.rest));
          output, input := output + Encode(point.value), point.rest;
        } else {
          return Failed(StringEscapeInvalid);
        }
      } else if c == '\"' as int {
        assert output + [] == output;
        return Lexed(output, input[1..]);
      } else if c < 0x20 {
        return Failed(if c == 0 then StringMissQuotationMark else StringInvalidEncoding);
      } else {
        BeforeBefore(output, [c], ReadString(input[1..]));
        output, input := output + [c], input[1..];
      }
    }
  }

  lemma PrependPrepend(a: Text, b: Text, tail: Option<Text>)
    ensures Prepend(a, Prepend(b, tail)) == Prepend(a + b, tail)
  {
    if tail.Some? {
      assert a + (b + tail.value) == (a + b) + tail.value;
    }
  }

  /** A string with its quotes; `None` when it cannot be written. */
  function Quoted(ascii: bool, s: Text): Option<Text> {
    match Written(ascii, s)
    case None => None
    case Some(body) => Some(['\"' as int] + body + ['\"' as int])
  }

  lemma PrependNothing(body: Text, tail: Option<Text>)
    ensures Prepend([], tail) == tail && Prepend(body, Some([])) == Some(body)
  {
    if tail.Some? {
      assert [] + tail.value == tail.value;
    }
    assert body + [] == body;
  }

  lemma WrittenMore(ascii: bool, s: Text, body: Text)
    requires s != []
    ensures match WrittenHead(ascii, s)
            case None => Written(ascii, s) == None
            case Some((piece, rest)) =>
              Prepend(body, Written(ascii, s)) == Prepend(body + piece, Written(ascii, rest))
  {
    match WrittenHead(ascii, s)
    case None =>
    case Some((piece, rest)) => PrependPrepend(body, piece, Written(ascii, rest));
  }

  /** One turn of the writer's loop. */
  method WriteHead(ascii: bool, s: Text) returns (head: Option<(Text, Text)>)
    requires s != []
    ensures head == WrittenHead(ascii, s)
  {
    if ascii && s[0] >= 0x80 {
      var decoded := Decode(s);
      if decoded == None { return None; }
      DecodeProgress(s);
      head := Some((UnicodeEscape(decoded.value.0), decoded.value.1));
    } else {
      head := Some((EscapedByte(s[0]), s[1..]));
    }
  }

  method WriteTurn(ascii: bool, s: Text, ghost body: Text, ghost whole: Option<Text>)
    returns (turn: Option<(Text, Text)>)
    requires s != [] && whole == Prepend(body, Written(ascii, s))
    ensures turn == None ==> whole == None
    ensures turn != None ==> |turn.value.1| < |s| && whole == Prepend(body + turn.value.0, Written(ascii, turn.value.1))
  {
    WrittenMore(ascii, s, body);
    turn := WriteHead(ascii, s);
  }

  method WriteString(ascii: bool, s: Text) returns (out: Option<Text>)
    ensures out == Quoted(ascii, s)
  {
    var input, output: Text := s, ['\"' as int];
    ghost var body: Text := [];
    PrependNothing([], Written(ascii, s));
    while input != []
      invariant Written(ascii, s) == Prepend(body, Written(ascii, input))
      invariant output == ['\"' as int] + body
      decreases |input|
    {
      var turn := WriteTurn(ascii, input, body, Written(ascii, s));
      if turn == None { return None; }
      output, body, input := output + turn.value.0, body + turn.value.0, turn.value.1;
    }
    PrependNothing(body, None);
    out := Some(output + ['\"' as int]);
  }

  /// ## Writing and reading

  lemma Hex4Value(u: nat)
    requires u < 0x10000
    ensures u == 16 * (16 * (16 * (u / 4096) + u / 256 % 16) + u / 16 % 16) + u % 16
  {
  }

  lemma HexDigitValue(d: nat)
    requires d < 16
    ensures HexValue(HexDigit(d)) == Some(d)
  {
  }

  lemma ReadWrittenHex4(u: nat, rest: Text)
    requires u < 0x10000
    ensures ReadHex4(Hex4(u) + rest) == Lexed(u, rest)
  {
    var text := Hex4(u) + rest;
    HexDigitValue(u / 4096);
    HexDigitValue(u / 256 % 16);
    HexDigitValue(u / 16 % 16);
    HexDigitValue(u % 16);
    assert HexPrefix(text, 1) == Some(u / 4096);
    assert HexPrefix(text, 2) == Some(16 * (u / 4096) + u / 256 % 16);
    assert HexPrefix(text, 3) == Some(16 * (16 * (u / 4096) + u / 256 % 16) + u / 16 % 16);
    Hex4Value(u);
    assert text[4..] == rest;
  }

  /** Two written surrogates are read back as the pair. */
  lemma ReadWrittenPair(high: nat, low: nat, rest: Text)
    requires high < 0x400 && low < 0x400
    ensures ReadUnicode(Hex4(0xD800 + high) + (UNICODE_ESCAPE + (Hex4(0xDC00 + low) + rest)))
         == Lexed(high * 0x400 + low + 0x10000, rest)
  {
    var behind := Hex4(0xDC00 + low) + rest;
    ReadWrittenHex4(0xD800 + high, UNICODE_ESCAPE + behind);
    assert (UNICODE_ESCAPE + behind)[..2] == UNICODE_ESCAPE && (UNICODE_ESCAPE + behind)[2..] == behind;
    ReadWrittenHex4(0xDC00 + low, rest);
  }

  lemma EscapeTail(c: nat, rest: Text)
    requires IsScalar(c)
    ensures UnicodeEscape(c)[..2] == UNICODE_ESCAPE
    ensures UnicodeEscape(c)[2..] + rest == if c <= 0xFFFF then Hex4(c) + rest
              else Hex4(0xD800 + (c - 0x10000) / 0x400)
                   + (UNICODE_ESCAPE + (Hex4(0xDC00 + (c - 0x10000) % 0x400) + rest))
  {
  }

  /** A written unicode escape is read back as its code point, behind `\u`. */
  lemma ReadWrittenUnicode(c: nat, rest: Text)
    requires IsScalar(c)
    ensures UnicodeEscape(c)[..2] == UNICODE_ESCAPE
    ensures ReadUnicode(UnicodeEscape(c)[2..] + rest) == Lexed(c, rest)
  {
    EscapeTail(c, rest);
    if c <= 0xFFFF {
      ReadWrittenHex4(c, rest);
    } else {
      ReadWrittenPair((c - 0x10000) / 0x400, (c - 0x10000) % 0x400, rest);
    }
  }

  lemma ReadUnicodeEscape(c: nat, rest: Text)
    requires IsScalar(c)
    ensures ReadString(UnicodeEscape(c) + rest) == Before(Encode(c), ReadString(rest))
  {
    ReadWrittenUnicode(c, rest);
    EscapeText(UnicodeEscape(c), rest);
  }

  lemma EscapeText(escape: Text, rest: Text)
    requires |escape| >= 2 && escape[..2] == UNICODE_ESCAPE
    ensures var text := escape + rest;
            text[0] == '\\' as int && text[1..][0] == 'u' as int && text[1..][1..] == escape[2..] + rest
  {
    assert escape[0] == escape[..2][0] && escape[1] == escape[..2][1];
  }

  lemma ControlEscape(c: Byte)
    requires c < 0x20 && Escape(c) == Some('u' as int)
    ensures EscapedByte(c) == UnicodeEscape(c) && Encode(c) == [c]
  {
  }

  lemma ReadEscapedByte(c: Byte, rest: Text)
    ensures ReadString(EscapedByte(c) + rest) == Before([c], ReadString(rest))
  {
    var text := EscapedByte(c) + rest;
    match Escape(c)
    case None => assert text[1..] == rest;
    case Some(letter) =>
      if letter == 'u' as int {
        ControlEscape(c);
        ReadUnicodeEscape(c, rest);
      } else {
        assert text[1..][0] == letter && text[1..][1..] == rest;
      }
  }

  /** What one turn has written is read back as what it has taken. */
  lemma ReadsWrittenHead(ascii: bool, s: Text, tail: Text)
    requires s != [] && WrittenHead(ascii, s).Some?
    ensures var (head, rest) := WrittenHead(ascii, s).value;
            var n := |s| - |rest|;
            s[n..] == rest && ReadString(head + tail) == Before(s[..n], ReadString(tail))
  {
    if ascii && s[0] >= 0x80 {
      DecodeProgress(s);
      DecodeIsDecodedChar(s);
      EncodeCharValue(s[..CharLength(s[0])]);
      ReadUnicodeEscape(Decode(s).value.0, tail);
    } else {
      ReadEscapedByte(s[0], tail);
      assert s[..1] == [s[0]];
    }
  }

  lemma ReadQuote(rest: Text)
    ensures ReadString(['\"' as int] + rest) == Lexed([], rest)
  {
    assert (['\"' as int] + rest)[1..] == rest;
  }

  lemma ReadsMore(s: Text, n: nat, text: Text, rest: Text, tail: Lexed<Text>)
    requires n <= |s| && tail == Lexed(s[n..], rest) && ReadString(text) == Before(s[..n], tail)
    ensures ReadString(text) == Lexed(s, rest)
  {
    assert s[..n] + s[n..] == s;
  }

  /** Every written string is read back, whatever follows its closing quote. With a UTF-8 target that
      is every byte string; see `WrittenIff` for an ASCII target. */
  lemma {:induction false} ReadsWritten(ascii: bool, s: Text, rest: Text)
    requires Written(ascii, s).Some?
    ensures ReadString(Written(ascii, s).value + (['\"' as int] + rest)) == Lexed(s, rest)
    decreases |s|
  {
    var tail := ['\"' as int] + rest;
    if s == [] {
      ReadQuote(rest);
      assert [] + tail == tail;
    } else {
      var (head, s') := WrittenHead(ascii, s).value;
      var written := Written(ascii, s').value;
      ReadsWritten(ascii, s', rest);
      ReadsWrittenHead(ascii, s, written + tail);
      Regrouped(head, written, tail);
      ReadsMore(s, |s| - |s'|, head + (written + tail), rest, Lexed(s', rest));
    }
  }

  /** A UTF-8 target takes every byte string, an ASCII target exactly the well-formed ones. */
  lemma WrittenIff(ascii: bool, s: Text)
    ensures Written(ascii, s).Some? <==> !ascii || WellFormed(s)
  {
    if ascii {
      DecodesIffWellFormed(s);
      WrittenIffDecodes(s);
    } else {
      WrittenAlways(s);
    }
  }

  lemma {:induction false} WrittenAlways(s: Text)
    ensures Written(false, s).Some?
  {
    if s != [] {
      WrittenAlways(s[1..]);
    }
  }

  lemma {:induction false} WrittenIffDecodes(s: Text)
    ensures Written(true, s).Some? <==> DecodeAll(s).Some?
    decreases |s|
  {
    if s != [] {
      if Decode(s).Some? {
        DecodeProgress(s);
        WrittenIffDecodes(Decode(s).value.1);
      }
    }
  }

  predicate IsAscii(s: Text) {
    forall i :: 0 <= i < |s| ==> s[i] < 0x80
  }

  lemma UnicodeEscapeAscii(c: nat)
    requires IsScalar(c)
    ensures IsAscii(UnicodeEscape(c))
  {
  }

  lemma EscapedByteAscii(c: Byte)
    requires c < 0x80
    ensures IsAscii(EscapedByte(c))
  {
  }

  /** With an ASCII target, only ASCII is written. */
  lemma {:induction false} WrittenAscii(s: Text)
    requires Written(true, s).Some?
    ensures IsAscii(Written(true, s).value)
    decreases |s|
  {
    if s != [] {
      var (head, s') := WrittenHead(true, s).value;
      WrittenAscii(s');
      if s[0] >= 0x80 {
        DecodeProgress(s);
        UnicodeEscapeAscii(Decode(s).value.0);
      } else {
        EscapedByteAscii(s[0]);
      }
      assert IsAscii(head);
    }
  }
}
