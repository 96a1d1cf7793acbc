/** Which error is reported for a string, a number or a word that is not one of the grammar. */
module JsonGrammarFaults {
  import opened JsonText
  import opened JsonNumbers
  import opened JsonStrings
  import opened JsonReader
  import opened JsonGrammar
  import opened JsonGrammarTokens
  import opened Powers
  import opened Wrappers

  /// ## Strings

  /** What is wrong behind `\u`: digits that are missing, or a surrogate without its partner. */
  function UnicodeFault(text: Text): Option<ErrorCode> {
    if |text| < 4 || !FourDigits(text[..4]) then Some(StringUnicodeEscapeInvalidHex)
    else if !(0xD800 <= HexNumber(text[..4]) <= 0xDBFF) then None
    else if |text| < 6 || text[4] != 0x5C || text[5] != 0x75 then Some(StringUnicodeSurrogateInvalid)
    else if |text| < 10 || !FourDigits(text[6..10]) then Some(StringUnicodeEscapeInvalidHex)
    else if !(0xDC00 <= HexNumber(text[6..10]) <= 0xDFFF) then Some(StringUnicodeSurrogateInvalid)
    else None
  }

  /** What is wrong with a text in a string, if neither a character nor the closing quote is at its
      beginning. */
  function StringFault(text: Text): Option<ErrorCode> {
    if text == [] || text[0] == 0 then Some(StringMissQuotationMark)
    else if text[0] < 0x20 then Some(StringInvalidEncoding)
    else if text[0] != 0x5C then None
    else if |text| == 1 || (text[1] != 0x75 && text[1] !in SHORT) then Some(StringEscapeInvalid)
    else if text[1] == 0x75 then UnicodeFault(text[2..])
    else None
  }

  lemma UnicodeFails(text: Text)
    ensures ReadUnicode(text) == match UnicodeFault(text)
                                 case Some(code) => Failed(code)
                                 case None => ReadUnicode(text)
    ensures ReadUnicode(text).Lexed? <==> UnicodeFault(text).None?
  {
    FourAreRead(text);
    if |text| >= 4 && FourDigits(text[..4]) && 0xD800 <= HexNumber(text[..4]) <= 0xDBFF {
      PairFails(text[4..]);
      assert |text| >= 6 ==> text[4..][0] == text[4] && text[4..][1] == text[5];
      assert |text| >= 10 ==> text[4..][2..][..4] == text[6..10];
    }
  }

  /** Behind the first of two surrogates. */
  lemma PairFails(behind: Text)
    ensures |behind| >= 2 ==> (behind[..2] == UNICODE_ESCAPE <==> behind[0] == 0x5C && behind[1] == 0x75)
    ensures |behind| >= 2 ==>
              ReadHex4(behind[2..])
              == if |behind| >= 6 && FourDigits(behind[2..][..4]) then
                   Lexed(HexNumber(behind[2..][..4]), behind[2..][4..])
                 else Failed(StringUnicodeEscapeInvalidHex)
  {
    if |behind| >= 2 {
      FourAreRead(behind[2..]);
    }
  }

  /** A string fails at once exactly if there is a fault at its beginning. */
  lemma FaultFails(text: Text)
    ensures StringFault(text).Some? ==> ReadString(text) == Failed(StringFault(text).value)
  {
    if text != [] && text[0] == 0x5C && |text| > 1 {
      UnescapeIs(text[1]);
      UnicodeFails(text[2..]);
      assert text[1..][0] == text[1] && text[1..][1..] == text[2..];
    }
  }

  lemma {:induction false} FaultBehindFails(cs: seq<Char>, text: Text)
    requires ValidChars(cs) && StringFault(text).Some?
    ensures ReadString(CharsText(cs) + text) == Failed(StringFault(text).value)
    decreases |cs|
  {
    if cs == [] {
      assert [] + text == text;
      FaultFails(text);
    } else {
      Regrouped(CharText(cs[0]), CharsText(cs[1..]), text);
      CharIsRead(cs[0], CharsText(cs[1..]) + text);
      FaultBehindFails(cs[1..], text);
    }
  }

  /** Without a fault there is the closing quote, or another character. */
  lemma NoFault(text: Text) returns (c: Char, rest: Text)
    requires StringFault(text).None? && text[0] != 0x22
    ensures ValidChar(c) && text == CharText(c) + rest && |rest| < |text|
  {
    if text[0] != 0x5C {
      c, rest := Raw(text[0]), text[1..];
      assert text == [text[0]] + rest;
    } else if text[1] != 0x75 {
      c, rest := Short(text[1]), text[2..];
      assert text == [0x5C, text[1]] + rest;
    } else {
      UnicodeFails(text[2..]);
      c := UnicodeIsChar(text[2..]);
      rest := ReadUnicode(text[2..]).rest;
      assert text == [0x5C, 0x75] + text[2..];
    }
  }

  lemma {:induction false} FaultIsBehind(text: Text) returns (cs: seq<Char>, bad: Text)
    requires ReadString(text).Failed?
    ensures ValidChars(cs) && text == CharsText(cs) + bad && StringFault(bad).Some?
    decreases |text|
  {
    cs, bad := [], text;
    if StringFault(text).None? {
      assert text[0] != 0x22;
      var c, rest := NoFault(text);
      CharIsRead(c, rest);
      var more;
      more, bad := FaultIsBehind(rest);
      cs := MoreChars(c, more);
      Regrouped(CharText(c), CharsText(more), bad);
    }
  }

  /** A string is refused with a code exactly if, behind some characters, there is this fault. */
  lemma StringFailsIff(text: Text, code: ErrorCode)
    ensures ReadString(text) == Failed(code)
       <==> exists cs, bad :: ValidChars(cs) && text == CharsText(cs) + bad && StringFault(bad) == Some(code)
  {
    if ReadString(text) == Failed(code) {
      var cs, bad := FaultIsBehind(text);
      FaultBehindFails(cs, bad);
    }
    forall cs, bad | ValidChars(cs) && text == CharsText(cs) + bad && StringFault(bad) == Some(code)
      ensures ReadString(text) == Failed(code)
    {
      FaultBehindFails(cs, bad);
    }
  }

  /// ## Numbers and words

  /** A number begins with a digit, or a minus sign and a digit. */
  lemma NoDigitFails(minus: bool, rest: Text)
    requires rest == [] || !(0x30 <= rest[0] <= 0x39)
    requires !minus ==> Peek(rest) != 0x2D
    ensures ReadNumber((if minus then [0x2D] else []) + rest) == Failed(ValueInvalid)
  {
    var text := (if minus then [0x2D] else []) + rest;
    if minus {
      assert text[1..] == rest;
      assert |text| > 1 ==> text[1] == rest[0];
    } else {
      assert text == rest;
    }
  }

  /** The integer part is too large to be read on. */
  predicate TooLong(n: Numeral)
    requires ValidNumeral(n)
  {
    Value(n.integer[..|n.integer| - 1]) >= 17976931348623157 * Power10(291)
  }

  lemma IntegerIsRead(n: Numeral, rest: Text)
    requires ValidNumeral(n) && n.fraction.None? && n.exponent.None? && !DigitAt(rest, 0)
    ensures var text := NumeralText(n) + rest; var from := |Sign(n)|; var p := from + |n.integer|;
            && (text[0] == 0x2D <==> n.minus) && p <= |text| && text[p..] == rest
            && IntegerEnd(text, from) == p && text[from..p] == n.integer
  {
    NumeralSplit(n, rest);
    assert [] + ([] + rest) == rest;
    IntegerIs(Sign(n), n.integer, rest, NumeralText(n) + rest);
    NumeralBegins(n);
  }

  lemma LastIsCut(text: Text, from: nat, p: nat, integer: Text)
    requires from < p <= |text| && text[from..p] == integer && AllDigits(integer)
    ensures TooManyDigits(text, from, p) <==> Value(integer[..|integer| - 1]) >= 17976931348623157 * Power10(291)
  {
    LimitIs();
    assert text[from..p - 1] == integer[..|integer| - 1];
  }

  lemma NoFractionAt(text: Text, from: nat, p: nat)
    requires text != [] && from == (if text[0] == 0x2D then 1 else 0) && from < p == IntegerEnd(text, from)
    requires p < |text| && text[p] == 0x2E && !DigitAt(text, p + 1)
    ensures ReadNumber(text) == Failed(if TooManyDigits(text, from, p) then NumberTooBig else NumberMissFraction)
  {
  }

  lemma PointAt(text: Text, p: nat, rest: Text)
    requires p <= |text| && text[p..] == [0x2E] + rest && !DigitAt(rest, 0)
    ensures p < |text| && text[p] == 0x2E && !DigitAt(text, p + 1)
  {
    assert text[p..][0] == 0x2E;
    assert rest != [] ==> text[p..][1] == rest[0];
  }

  /** Behind a point there must be a digit. */
  lemma NoFractionFails(n: Numeral, rest: Text)
    requires ValidNumeral(n) && n.fraction.None? && n.exponent.None?
    requires rest == [] || !(0x30 <= rest[0] <= 0x39)
    ensures ReadNumber(NumeralText(n) + ([0x2E] + rest))
         == Failed(if TooLong(n) then NumberTooBig else NumberMissFraction)
  {
    var text := NumeralText(n) + ([0x2E] + rest);
    var from := |Sign(n)|;
    var p := from + |n.integer|;
    IntegerIsRead(n, [0x2E] + rest);
    PointAt(text, p, rest);
    LastIsCut(text, from, p, n.integer);
    NoFractionAt(text, from, p);
  }

  /** The letter of an exponent, and a sign that may follow it. */
  function ExponentHead(letter: Byte, sign: Option<Byte>): Text {
    [letter] + if sign.Some? then [sign.value] else []
  }

  predicate ValidHead(letter: Byte, sign: Option<Byte>) {
    (letter == 0x65 || letter == 0x45) && (sign.Some? ==> sign.value == 0x2B || sign.value == 0x2D)
  }

  lemma HeadIsRead(before: Text, letter: Byte, sign: Option<Byte>, rest: Text, text: Text, maxExp: nat)
    requires text == before + (ExponentHead(letter, sign) + rest) && ValidHead(letter, sign)
    requires !DigitAt(rest, 0) && (sign.None? ==> Peek(rest) != 0x2B && Peek(rest) != 0x2D)
    ensures ExponentEnd(text, |before|, maxExp) == Failed(NumberMissExponent)
  {
    var p := |before|;
    var tail := ExponentHead(letter, sign) + rest;
    assert text[p..] == tail && text[p] == tail[0];
    assert |tail| > 1 ==> text[p + 1] == tail[1];
    assert |tail| > 2 ==> text[p + 2] == tail[2];
  }

  lemma HeadBehind(n: Numeral, tail: Text)
    requires ValidNumeral(n) && n.exponent.None? && (Peek(tail) == 0x65 || Peek(tail) == 0x45)
    ensures var from := |Sign(n)|; var p := from + |n.integer|; var q := p + |FractionText(n.fraction)|;
            HasParts(NumeralText(n) + tail, from, p, q, n.integer, n.fraction)
  {
    HeadBegins(n, tail);
    PartsAreFound(n, tail, |Sign(n)| + |n.integer|);
  }

  lemma HeadBegins(n: Numeral, tail: Text)
    requires ValidNumeral(n) && n.exponent.None? && (Peek(tail) == 0x65 || Peek(tail) == 0x45)
    ensures var all := ExponentText(n.exponent) + tail;
            !DigitAt(all, 0) && Peek(all) != 0x2E && !DigitAt(FractionText(n.fraction) + all, 0)
  {
    assert [] + tail == tail;
  }

  lemma NoExponentAt(text: Text, n: Numeral, from: nat, p: nat, q: nat)
    requires ValidNumeral(n) && text != [] && from == (if n.minus then 1 else 0) && (text[0] == 0x2D <==> n.minus)
    requires from < p && HasParts(text, from, p, q, n.integer, n.fraction)
    requires ExponentEnd(text, q, 308) == Failed(NumberMissExponent)
    ensures ReadNumber(text) == Failed(if TooLong(n) then NumberTooBig else NumberMissExponent)
  {
    ReadNumberFrom(text, from, p, q);
    LastIsCut(text, from, p, n.integer);
    NoDigitsWhatever(text, q, 308, MaxExponent(text, from, p, q));
  }

  lemma NoDigitsWhatever(text: Text, q: nat, maxExp: nat, other: nat)
    requires q <= |text| && ExponentEnd(text, q, maxExp) == Failed(NumberMissExponent)
    ensures ExponentEnd(text, q, other) == Failed(NumberMissExponent)
  {
  }

  lemma HeadAt(n: Numeral, letter: Byte, sign: Option<Byte>, rest: Text, q: nat)
    requires ValidHead(letter, sign) && !DigitAt(rest, 0) && q == |NumeralText(n)|
    requires sign.None? ==> Peek(rest) != 0x2B && Peek(rest) != 0x2D
    ensures ExponentEnd(NumeralText(n) + (ExponentHead(letter, sign) + rest), q, 308) == Failed(NumberMissExponent)
  {
    HeadIsRead(NumeralText(n), letter, sign, rest, NumeralText(n) + (ExponentHead(letter, sign) + rest), 308);
  }

  /** Behind the letter of an exponent, and its sign, there must be a digit. */
  lemma NoExponentFails(n: Numeral, letter: Byte, sign: Option<Byte>, rest: Text)
    requires ValidNumeral(n) && n.exponent.None? && ValidHead(letter, sign)
    requires rest == [] || !(0x30 <= rest[0] <= 0x39)
    requires sign.None? ==> Peek(rest) != 0x2B && Peek(rest) != 0x2D
    ensures ReadNumber(NumeralText(n) + (ExponentHead(letter, sign) + rest))
         == Failed(if TooLong(n) then NumberTooBig else NumberMissExponent)
  {
    var tail := ExponentHead(letter, sign) + rest;
    HeadBehind(n, tail);
    NumeralBegins(n);
    NumeralLength(n);
    HeadAt(n, letter, sign, rest, |NumeralText(n)|);
    NoExponentAt(NumeralText(n) + tail, n, |Sign(n)|, |Sign(n)| + |n.integer|, |NumeralText(n)|);
  }
}
