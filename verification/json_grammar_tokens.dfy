/** The strings and numbers that the reader takes are those of the grammar, with the same meaning. */
module JsonGrammarTokens {
  import opened Characters
  import opened JsonText
  import opened JsonNumbers
  import opened JsonStrings
  import opened JsonGrammar
  import opened Powers
  import opened Wrappers
  import U = Utf

  /// ## Strings

  lemma HexIs(c: Byte)
    ensures HexValue(c) == if c in HEX then Some(Hex(c)) else None
  {
  }

  lemma UnescapeIs(letter: Byte)
    ensures Unescape(letter) == if letter in SHORT then Some(SHORT[letter]) else None
  {
  }

  lemma Utf8Is(c: nat)
    requires c < 0x110000
    ensures Utf8(c) == U.Encode(c)
  {
  }

  lemma FourAreRead(text: Text)
    ensures ReadHex4(text) == if |text| >= 4 && FourDigits(text[..4]) then Lexed(HexNumber(text[..4]), text[4..])
                              else Failed(StringUnicodeEscapeInvalidHex)
  {
    if |text| > 0 { HexIs(text[0]); }
    if |text| > 1 { HexIs(text[1]); }
    if |text| > 2 { HexIs(text[2]); }
    if |text| > 3 { HexIs(text[3]); }
    FourUnfolded(text);
  }

  lemma FourUnfolded(text: Text)
    ensures HexPrefix(text, 4).Some? <==> |text| >= 4 && forall i :: 0 <= i < 4 ==> HexValue(text[i]).Some?
    ensures HexPrefix(text, 4).Some? ==>
              HexPrefix(text, 4).value == 4096 * HexValue(text[0]).value + 256 * HexValue(text[1]).value
                                          + 16 * HexValue(text[2]).value + HexValue(text[3]).value
  {
    assert HexPrefix(text, 1).Some? <==> |text| >= 1 && HexValue(text[0]).Some?;
    assert HexPrefix(text, 2).Some? <==> HexPrefix(text, 1).Some? && |text| >= 2 && HexValue(text[1]).Some?;
    assert HexPrefix(text, 3).Some? <==> HexPrefix(text, 2).Some? && |text| >= 3 && HexValue(text[2]).Some?;
  }

  lemma PairIsRead(high: Text, low: Text, rest: Text)
    requires ValidChar(Pair(high, low))
    ensures ReadUnicode(high + ([0x5C, 0x75] + (low + rest)))
         == Lexed(0x10000 + 0x400 * (HexNumber(high) - 0xD800) + (HexNumber(low) - 0xDC00), rest)
  {
    var behind := [0x5C, 0x75] + (low + rest);
    var text := high + behind;
    assert text[..4] == high && text[4..] == behind;
    assert behind[..2] == UNICODE_ESCAPE && behind[2..] == low + rest;
    assert (low + rest)[..4] == low && (low + rest)[4..] == rest;
    FourAreRead(text);
    FourAreRead(low + rest);
  }

  lemma UnicodeIsRead(digits: Text, rest: Text)
    requires ValidChar(Unicode(digits))
    ensures ReadUnicode(digits + rest) == Lexed(HexNumber(digits), rest)
  {
    assert (digits + rest)[..4] == digits && (digits + rest)[4..] == rest;
    FourAreRead(digits + rest);
  }

  lemma CodeIsRead(code: Text, point: nat, rest: Text)
    requires point < 0x110000 && ReadUnicode(code) == Lexed(point, rest)
    ensures ReadString([0x5C, 0x75] + code) == Before(Utf8(point), ReadString(rest))
  {
    Utf8Is(point);
    var text := [0x5C, 0x75] + code;
    assert text[1..][0] == 0x75 && text[1..][1..] == code;
  }

  lemma ShortIsRead(letter: Byte, rest: Text)
    requires letter in SHORT
    ensures ReadString([0x5C, letter] + rest) == Before([SHORT[letter]], ReadString(rest))
  {
    UnescapeIs(letter);
    var text := [0x5C, letter] + rest;
    assert text[1..][0] == letter && text[1..][1..] == rest;
  }

  lemma RawIsRead(b: Byte, rest: Text)
    requires ValidChar(Raw(b))
    ensures ReadString([b] + rest) == Before([b], ReadString(rest))
  {
    assert ([b] + rest)[1..] == rest;
  }

  lemma PairText(high: Text, low: Text, rest: Text)
    ensures CharText(Pair(high, low)) + rest == [0x5C, 0x75] + (high + ([0x5C, 0x75] + (low + rest)))
  {
    Regrouped([0x5C, 0x75], low, rest);
    Regrouped(high, [0x5C, 0x75] + low, rest);
    Regrouped([0x5C, 0x75], high + ([0x5C, 0x75] + low), rest);
  }

  /** One character. */
  lemma CharIsRead(c: Char, rest: Text)
    requires ValidChar(c)
    ensures ReadString(CharText(c) + rest) == Before(CharBytes(c), ReadString(rest))
  {
    match c
    case Raw(b) =>
      RawIsRead(b, rest);
    case Short(letter) =>
      ShortIsRead(letter, rest);
    case Unicode(digits) =>
      UnicodeIsRead(digits, rest);
      Regrouped([0x5C, 0x75], digits, rest);
      CodeIsRead(digits + rest, HexNumber(digits), rest);
    case Pair(high, low) =>
      PairIsRead(high, low, rest);
      PairText(high, low, rest);
      CodeIsRead(high + ([0x5C, 0x75] + (low + rest)),
                 0x10000 + 0x400 * (HexNumber(high) - 0xD800) + (HexNumber(low) - 0xDC00), rest);
  }

  lemma {:induction false} CharsAreRead(cs: seq<Char>, rest: Text)
    requires ValidChars(cs)
    ensures ReadString(CharsText(cs) + ([0x22] + rest)) == Lexed(CharsBytes(cs), rest)
    decreases |cs|
  {
    if cs == [] {
      ReadQuote(rest);
      assert [] + ([0x22] + rest) == [0x22] + rest;
    } else {
      var tail := CharsText(cs[1..]) + ([0x22] + rest);
      Regrouped(CharText(cs[0]), CharsText(cs[1..]), [0x22] + rest);
      CharIsRead(cs[0], tail);
      CharsAreRead(cs[1..], rest);
    }
  }

  lemma PairIsChar(high: Text, behind: Text) returns (c: Char)
    requires FourDigits(high) && 0xD800 <= HexNumber(high) <= 0xDBFF && ReadUnicode(high + behind).Lexed?
    ensures ValidChar(c) && [0x5C, 0x75] + (high + behind) == CharText(c) + ReadUnicode(high + behind).rest
    ensures CharBytes(c) == Utf8(ReadUnicode(high + behind).value)
  {
    var text := high + behind;
    assert text[..4] == high && text[4..] == behind;
    FourAreRead(text);
    FourAreRead(behind[2..]);
    var low, rest := behind[2..][..4], behind[2..][4..];
    assert behind == [0x5C, 0x75] + (low + rest);
    c := Pair(high, low);
    PairIsRead(high, low, rest);
    PairText(high, low, rest);
  }

  /** The character behind `\u`. */
  lemma UnicodeIsChar(text: Text) returns (c: Char)
    requires ReadUnicode(text).Lexed?
    ensures ValidChar(c) && [0x5C, 0x75] + text == CharText(c) + ReadUnicode(text).rest
    ensures CharBytes(c) == U.Encode(ReadUnicode(text).value)
  {
    FourAreRead(text);
    var high, behind := text[..4], text[4..];
    assert text == high + behind;
    if 0xD800 <= HexNumber(high) <= 0xDBFF {
      c := PairIsChar(high, behind);
    } else {
      c := Unicode(high);
      Regrouped([0x5C, 0x75], high, behind);
    }
    Utf8Is(ReadUnicode(text).value);
  }

  /** What the reader takes first. */
  lemma CharOf(text: Text) returns (c: Char, rest: Text)
    requires ReadString(text).Lexed? && text[0] != 0x22
    ensures ValidChar(c) && text == CharText(c) + rest && |rest| < |text|
    ensures ReadString(text) == Before(CharBytes(c), ReadString(rest))
  {
    var behind := text[1..];
    if text[0] == 0x5C {
      var e := Peek(behind);
      UnescapeIs(e);
      if Unescape(e).Some? {
        assert text == [0x5C, e] + behind[1..];
        c, rest := Short(e), behind[1..];
      } else {
        c := UnicodeIsChar(behind[1..]);
        assert text == [0x5C, 0x75] + behind[1..];
        rest := ReadUnicode(behind[1..]).rest;
      }
    } else {
      assert text == [text[0]] + behind;
      c, rest := Raw(text[0]), behind;
    }
  }

  lemma MoreChars(c: Char, more: seq<Char>) returns (cs: seq<Char>)
    requires ValidChar(c) && ValidChars(more)
    ensures ValidChars(cs) && CharsText(cs) == CharText(c) + CharsText(more)
    ensures CharsBytes(cs) == CharBytes(c) + CharsBytes(more)
  {
    cs := [c] + more;
    assert cs[1..] == more;
  }

  lemma {:induction false} StringIsChars(text: Text) returns (cs: seq<Char>)
    requires ReadString(text).Lexed?
    ensures ValidChars(cs) && CharsBytes(cs) == ReadString(text).value
    ensures text == CharsText(cs) + ([0x22] + ReadString(text).rest)
    decreases |text|
  {
    cs := [];
    if text[0] == 0x22 {
      assert text == [0x22] + text[1..];
    } else {
      var c, rest := CharOf(text);
      var more := StringIsChars(rest);
      cs := MoreChars(c, more);
      Regrouped(CharText(c), CharsText(more), [0x22] + ReadString(text).rest);
    }
  }

  /// ## Numbers

  lemma {:induction false} DigitsEndIs(text: Text, p: nat, q: nat)
    requires p <= q <= |text| && (forall i :: p <= i < q ==> IsDigit(text[i])) && !DigitAt(text, q)
    ensures DigitsEnd(text, p) == q
    decreases q - p
  {
    if p < q {
      DigitsEndIs(text, p + 1, q);
    }
  }

  /** The digits from position `p` on. */
  lemma DigitsAre(before: Text, digits: Text, rest: Text, text: Text)
    requires text == before + (digits + rest) && Digits(digits) && !DigitAt(rest, 0)
    ensures DigitsEnd(text, |before|) == |before| + |digits| && DigitAt(text, |before|)
    ensures text[|before|..|before| + |digits|] == digits && text[|before| + |digits|..] == rest
  {
    assert forall i :: 0 <= i < |digits| ==> text[|before| + i] == digits[i];
    assert forall i :: |before| <= i < |before| + |digits| ==> text[i] == digits[i - |before|];
    assert |before| + |digits| < |text| ==> text[|before| + |digits|] == rest[0];
    DigitsEndIs(text, |before|, |before| + |digits|);
  }

  lemma IntegerIs(before: Text, integer: Text, rest: Text, text: Text)
    requires text == before + (integer + rest) && Digits(integer) && (integer[0] == 0x30 ==> |integer| == 1)
    requires !DigitAt(rest, 0)
    ensures IntegerEnd(text, |before|) == |before| + |integer|
    ensures text[|before|..|before| + |integer|] == integer && text[|before| + |integer|..] == rest
  {
    DigitsAre(before, integer, rest, text);
    assert text[|before|] == integer[0];
  }

  lemma FractionIs(before: Text, fraction: Option<Text>, rest: Text, text: Text)
    requires text == before + (FractionText(fraction) + rest) && (fraction.Some? ==> Digits(fraction.value))
    requires !DigitAt(rest, 0) && Peek(rest) != 0x2E
    ensures var q := |before| + |FractionText(fraction)|;
            && FractionEnd(text, |before|) == Lexed(q, []) && text[q..] == rest
            && FractionDigits(text, |before|, q) == if fraction.Some? then fraction.value else []
  {
    match fraction
    case None =>
      assert text[|before|..] == rest;
    case Some(digits) =>
      PointIs(before, digits, rest, text);
  }

  lemma PointIs(before: Text, digits: Text, rest: Text, text: Text)
    requires text == before + ([0x2E] + digits + rest) && Digits(digits) && !DigitAt(rest, 0)
    ensures var q := |before| + 1 + |digits|;
            && FractionEnd(text, |before|) == Lexed(q, []) && text[q..] == rest
            && FractionDigits(text, |before|, q) == digits
  {
    assert text == before + [0x2E] + (digits + rest);
    DigitsAre(before + [0x2E], digits, rest, text);
  }

  /** What the reader requires of an exponent. */
  predicate ExponentTooBig(e: Option<Exponent>, maxExp: nat) {
    e.Some? && Digits(e.value.digits) && !Negative(e.value) && Value(e.value.digits) > maxExp
  }

  lemma NextIs(before: Text, c: Byte, rest: Text, text: Text)
    requires text == before + ([c] + rest)
    ensures |before| < |text| && text[|before|] == c && text == (before + [c]) + rest
    ensures rest != [] ==> |before| + 1 < |text| && text[|before| + 1] == rest[0]
  {
  }

  /** The parts of an exponent, as the reader finds them. */
  predicate HasExponent(text: Text, p: nat, q: nat, e: Exponent) {
    && p + 1 <= q < |text| && text[p] == e.letter && (text[p + 1] == 0x2D <==> Negative(e))
    && ExponentStart(text, p) == q && DigitAt(text, q) && DigitsEnd(text, q) == q + |e.digits|
    && text[q..q + |e.digits|] == e.digits
  }

  /** The exponent, if there is one, is at `p` and ends at `end`. */
  predicate ExponentAt(text: Text, p: nat, e: Option<Exponent>, end: nat) {
    match e
    case None => end == p <= |text| && (p < |text| ==> text[p] != 0x65 && text[p] != 0x45)
    case Some(x) => |x.digits| <= end <= |text| && HasExponent(text, p, end - |x.digits|, x)
  }

  lemma ExponentIs(before: Text, e: Option<Exponent>, tail: Text, rest: Text, text: Text)
    requires text == before + tail && tail == ExponentText(e) + rest
    requires (e.Some? ==> ValidExponent(e.value)) && EndsNumeral(rest)
    ensures var end := |before| + |ExponentText(e)|;
            ExponentAt(text, |before|, e, end) && text[end..] == rest
  {
    match e
    case None =>
      assert [] + rest == rest;
    case Some(x) =>
      ExponentLength(x);
      ExponentStartIs(before, x, tail, rest, text, |before| + (if x.sign.Some? then 2 else 1));
  }

  lemma ExponentEndFrom(text: Text, p: nat, q: nat, digits: Text, maxExp: nat)
    requires q < |text| && p + 1 < |text| && (text[p] == 0x65 || text[p] == 0x45) && ExponentStart(text, p) == q
    requires DigitAt(text, q) && DigitsEnd(text, q) == q + |digits| && text[q..q + |digits|] == digits
    requires AllDigits(digits)
    ensures ExponentEnd(text, p, maxExp)
         == if text[p + 1] != 0x2D && Value(digits) > maxExp then Failed(NumberTooBig) else Lexed(q + |digits|, [])
  {
  }

  lemma ExponentLength(e: Exponent)
    ensures |ExponentText(Some(e))| == (if e.sign.Some? then 2 else 1) + |e.digits|
  {
  }

  lemma ExponentEndIs(text: Text, p: nat, e: Option<Exponent>, end: nat, maxExp: nat)
    requires (e.Some? ==> ValidExponent(e.value)) && ExponentAt(text, p, e, end)
    ensures ExponentEnd(text, p, maxExp)
         == if ExponentTooBig(e, maxExp) then Failed(NumberTooBig) else Lexed(end, [])
  {
    if e.Some? {
      ExponentEndFrom(text, p, end - |e.value.digits|, e.value.digits, maxExp);
    }
  }

  lemma ExponentStartIs(before: Text, e: Exponent, tail: Text, rest: Text, text: Text, q: nat)
    requires text == before + tail && tail == ExponentText(Some(e)) + rest && ValidExponent(e) && !DigitAt(rest, 0)
    requires q == |before| + (if e.sign.Some? then 2 else 1)
    ensures HasExponent(text, |before|, q, e) && text[q + |e.digits|..] == rest
  {
    if e.sign.Some? {
      SignedSplit(e, rest);
      SignedStartIs(before, e.letter, e.sign.value, e.digits, rest, text);
    } else {
      UnsignedSplit(e, rest);
      UnsignedStartIs(before, e.letter, e.digits, rest, text);
    }
  }

  lemma UnsignedStartIs(before: Text, letter: Byte, digits: Text, rest: Text, text: Text)
    requires text == before + ([letter] + (digits + rest)) && Digits(digits) && !DigitAt(rest, 0)
    ensures HasExponent(text, |before|, |before| + 1, Exponent(letter, None, digits))
    ensures text[|before| + 1 + |digits|..] == rest
  {
    NextIs(before, letter, digits + rest, text);
    DigitsAre(before + [letter], digits, rest, text);
  }

  lemma SignedStartIs(before: Text, letter: Byte, sign: Byte, digits: Text, rest: Text, text: Text)
    requires text == before + ([letter] + ([sign] + (digits + rest))) && Digits(digits) && !DigitAt(rest, 0)
    requires sign == 0x2B || sign == 0x2D
    ensures HasExponent(text, |before|, |before| + 2, Exponent(letter, Some(sign), digits))
    ensures text[|before| + 2 + |digits|..] == rest
  {
    NextIs(before, letter, [sign] + (digits + rest), text);
    NextIs(before + [letter], sign, digits + rest, text);
    DigitsAre(before + [letter] + [sign], digits, rest, text);
  }

  lemma SignedSplit(e: Exponent, rest: Text)
    requires e.sign.Some?
    ensures ExponentText(Some(e)) + rest == [e.letter] + ([e.sign.value] + (e.digits + rest))
  {
    Regrouped([e.sign.value], e.digits, rest);
    Regrouped([e.letter], [e.sign.value] + e.digits, rest);
  }

  lemma UnsignedSplit(e: Exponent, rest: Text)
    requires e.sign.None?
    ensures ExponentText(Some(e)) + rest == [e.letter] + (e.digits + rest)
  {
    assert [] + e.digits == e.digits;
    Regrouped([e.letter], e.digits, rest);
  }

  function Sign(n: Numeral): Text {
    if n.minus then [0x2D] else []
  }

  lemma EventIs(n: Numeral, literal: Text)
    requires ValidNumeral(n) && literal == NumeralText(n)
    ensures NumeralEvent(n) == if n.fraction.Some? || n.exponent.Some? then Double(literal)
                               else Classified(n.minus, Value(n.integer), literal)
  {
  }

  predicate HasInteger(text: Text, from: nat, p: nat, integer: Text) {
    from <= p <= |text| && IntegerEnd(text, from) == p && text[from..p] == integer
  }

  predicate HasFraction(text: Text, p: nat, q: nat, fraction: Option<Text>) {
    && p <= q <= |text| && FractionEnd(text, p) == Lexed(q, [])
    && FractionDigits(text, p, q) == (if fraction.Some? then fraction.value else [])
  }

  /** The integer and the fraction, as the reader finds them. */
  predicate HasParts(text: Text, from: nat, p: nat, q: nat, integer: Text, fraction: Option<Text>) {
    HasInteger(text, from, p, integer) && HasFraction(text, p, q, fraction)
  }

  lemma IntegerFound(sign: Text, integer: Text, behind: Text, text: Text, p: nat)
    requires text == sign + (integer + behind) && p == |sign| + |integer|
    requires Digits(integer) && (integer[0] == 0x30 ==> |integer| == 1) && !DigitAt(behind, 0)
    ensures HasInteger(text, |sign|, p, integer)
  {
    IntegerIs(sign, integer, behind, text);
  }

  lemma FractionFound(front: Text, fraction: Option<Text>, tail: Text, text: Text, p: nat, q: nat)
    requires text == front + (FractionText(fraction) + tail) && p == |front| && q == p + |FractionText(fraction)|
    requires (fraction.Some? ==> Digits(fraction.value)) && !DigitAt(tail, 0) && Peek(tail) != 0x2E
    ensures HasFraction(text, p, q, fraction)
  {
    FractionIs(front, fraction, tail, text);
  }

  lemma PartsAreRead(n: Numeral, rest: Text)
    requires ValidNumeral(n) && EndsNumeral(rest)
    ensures var from := |Sign(n)|; var p := from + |n.integer|; var q := p + |FractionText(n.fraction)|;
            HasParts(NumeralText(n) + rest, from, p, q, n.integer, n.fraction)
  {
    TailBegins(n, rest);
    PartsAreFound(n, rest, |Sign(n)| + |n.integer|);
  }

  /** Whatever follows the number, if it is no part of it. */
  lemma PartsAreFound(n: Numeral, rest: Text, p: nat)
    requires ValidNumeral(n) && p == |Sign(n)| + |n.integer|
    requires var tail := ExponentText(n.exponent) + rest;
             !DigitAt(tail, 0) && Peek(tail) != 0x2E && !DigitAt(FractionText(n.fraction) + tail, 0)
    ensures HasParts(NumeralText(n) + rest, |Sign(n)|, p, p + |FractionText(n.fraction)|, n.integer, n.fraction)
  {
    var tail := ExponentText(n.exponent) + rest;
    IntegerOfNumeral(n, rest, FractionText(n.fraction) + tail, p);
    FractionOfNumeral(n, rest, tail, p);
  }

  lemma IntegerOfNumeral(n: Numeral, rest: Text, behind: Text, p: nat)
    requires ValidNumeral(n) && p == |Sign(n)| + |n.integer| && !DigitAt(behind, 0)
    requires behind == FractionText(n.fraction) + (ExponentText(n.exponent) + rest)
    ensures HasInteger(NumeralText(n) + rest, |Sign(n)|, p, n.integer)
  {
    NumeralSplit(n, rest);
    IntegerFound(Sign(n), n.integer, behind, NumeralText(n) + rest, p);
  }

  lemma FractionOfNumeral(n: Numeral, rest: Text, tail: Text, p: nat)
    requires ValidNumeral(n) && p == |Sign(n)| + |n.integer| && !DigitAt(tail, 0) && Peek(tail) != 0x2E
    requires tail == ExponentText(n.exponent) + rest
    ensures HasFraction(NumeralText(n) + rest, p, p + |FractionText(n.fraction)|, n.fraction)
  {
    NumeralSplit(n, rest);
    Regrouped(Sign(n), n.integer, FractionText(n.fraction) + tail);
    FractionFound(Sign(n) + n.integer, n.fraction, tail, NumeralText(n) + rest, p, p + |FractionText(n.fraction)|);
  }

  lemma NumeralSplit(n: Numeral, rest: Text)
    ensures NumeralText(n) + rest
         == Sign(n) + (n.integer + (FractionText(n.fraction) + (ExponentText(n.exponent) + rest)))
  {
    Regrouped(FractionText(n.fraction), ExponentText(n.exponent), rest);
    Regrouped(n.integer, FractionText(n.fraction) + ExponentText(n.exponent), rest);
    Regrouped(Sign(n), n.integer + (FractionText(n.fraction) + ExponentText(n.exponent)), rest);
  }

  lemma TailBegins(n: Numeral, rest: Text)
    requires ValidNumeral(n) && EndsNumeral(rest)
    ensures var tail := ExponentText(n.exponent) + rest;
            !DigitAt(tail, 0) && Peek(tail) != 0x2E && !DigitAt(FractionText(n.fraction) + tail, 0)
  {
  }

  lemma NumeralBegins(n: Numeral)
    requires ValidNumeral(n)
    ensures NumeralText(n) != [] && (NumeralText(n)[0] == 0x2D <==> n.minus)
  {
    assert n.integer + (FractionText(n.fraction) + ExponentText(n.exponent)) != [];
    assert [] + n.integer == n.integer;
  }

  lemma ExponentIsRead(n: Numeral, rest: Text)
    requires ValidNumeral(n) && EndsNumeral(rest)
    ensures var q := |Sign(n)| + |n.integer| + |FractionText(n.fraction)|;
            ExponentAt(NumeralText(n) + rest, q, n.exponent, |NumeralText(n)|)
  {
    var front := Sign(n) + n.integer + FractionText(n.fraction);
    var tail := ExponentText(n.exponent) + rest;
    NumeralFront(n);
    Regrouped(front, ExponentText(n.exponent), rest);
    FrontLength(Sign(n), n.integer, FractionText(n.fraction), ExponentText(n.exponent));
    ExponentIs(front, n.exponent, tail, rest, NumeralText(n) + rest);
  }

  lemma FrontLength(a: Text, b: Text, c: Text, d: Text)
    ensures |a + b + c| == |a| + |b| + |c| && |a + b + c + d| == |a| + |b| + |c| + |d|
  {
  }

  lemma CutAt(a: Text, b: Text)
    ensures (a + b)[..|a|] == a && (a + b)[|a|..] == b
  {
  }

  lemma NumeralFront(n: Numeral)
    ensures NumeralText(n) == Sign(n) + n.integer + FractionText(n.fraction) + ExponentText(n.exponent)
  {
    Regrouped(Sign(n), n.integer, FractionText(n.fraction) + ExponentText(n.exponent));
    Regrouped(Sign(n) + n.integer, FractionText(n.fraction), ExponentText(n.exponent));
  }

  /** The reader behind the fraction. */
  lemma ReadNumberFrom(text: Text, from: nat, p: nat, q: nat)
    requires text != [] && from == (if text[0] == 0x2D then 1 else 0) && from < p == IntegerEnd(text, from)
    requires FractionEnd(text, p) == Lexed(q, [])
    ensures AllDigits(text[from..p]) && AllDigits(FractionDigits(text, p, q))
    ensures ReadNumber(text)
         == if TooManyDigits(text, from, p) then Failed(NumberTooBig)
            else
              match ExponentEnd(text, q, MaxExponent(text, from, p, q))
              case Failed(code) => Failed(code)
              case Lexed(end, _) =>
                Lexed(if end > p then Double(text[..end]) else Classified(from == 1, Value(text[from..p]), text[..end]),
                      text[end..])
  {
    FractionIsDigits(text, p);
  }

  /** The number whose parts are at these positions. */
  lemma NumberIsReadAt(text: Text, n: Numeral, from: nat, p: nat, q: nat, end: nat)
    requires ValidNumeral(n) && text != [] && from == (if n.minus then 1 else 0) && (text[0] == 0x2D <==> n.minus)
    requires from < p && HasParts(text, from, p, q, n.integer, n.fraction) && ExponentAt(text, q, n.exponent, end)
    requires p <= end <= |text| && text[..end] == NumeralText(n)
    requires end > p <==> n.fraction.Some? || n.exponent.Some?
    ensures ReadNumber(text) == if TooBig(n) then Failed(NumberTooBig) else Lexed(NumeralEvent(n), text[end..])
  {
    ReadNumberFrom(text, from, p, q);
    TooBigIs(n, text, from, p, q);
    ExponentEndIs(text, q, n.exponent, end, MaxExponent(text, from, p, q));
    EventIs(n, NumeralText(n));
  }

  /** A number is read to its end and gives its event, unless it is too big. */
  lemma NumberIsRead(n: Numeral, rest: Text)
    requires ValidNumeral(n) && EndsNumeral(rest)
    ensures ReadNumber(NumeralText(n) + rest)
         == if TooBig(n) then Failed(NumberTooBig) else Lexed(NumeralEvent(n), rest)
  {
    var p := |Sign(n)| + |n.integer|;
    PartsAreRead(n, rest);
    NumeralBegins(n);
    ExponentIsRead(n, rest);
    CutAt(NumeralText(n), rest);
    NumeralLength(n);
    NumberIsReadAt(NumeralText(n) + rest, n, |Sign(n)|, p, p + |FractionText(n.fraction)|, |NumeralText(n)|);
  }

  lemma NumeralLength(n: Numeral)
    requires ValidNumeral(n)
    ensures |NumeralText(n)| == |Sign(n)| + |n.integer| + |FractionText(n.fraction)| + |ExponentText(n.exponent)|
    ensures |FractionText(n.fraction)| > 0 <==> n.fraction.Some?
    ensures |ExponentText(n.exponent)| > 0 <==> n.exponent.Some?
  {
  }

  lemma Ten96()
    ensures Power10(96)
         == 1000000000000000000000000000000000000000000000000000000000000000000000000000000000000000000000000
  {
    assert Power(10, 6) == 1_000_000;
    PowerAdd(10, 6, 6);
    PowerAdd(10, 12, 12);
    PowerAdd(10, 24, 24);
    PowerAdd(10, 48, 48);
  }

  lemma LimitIs()
    ensures DOUBLE_LIMIT == 17976931348623157 * Power10(291)
  {
    Ten96();
    assert Power10(97) == TEN97;
    PowerAdd(10, 97, 97);
    PowerAdd(10, 97, 194);
  }

  lemma {:induction false} CountedFrom(n: Numeral, k: nat)
    requires ValidNumeral(n) && k <= |Decimals(n)|
    ensures k + CountedDigits(Leading(n, k), |n.integer| - 1 + SignificantTo(n, k),
                              Decimals(n)[k..])
         == CountedTo(n, k)
    decreases |Decimals(n)| - k
  {
    var digits := Decimals(n);
    if k < |digits| {
      LeadingMore(n, k);
      CountedFrom(n, k + 1);
      assert digits[k..][1..] == digits[k + 1..];
    }
  }

  lemma LeadingMore(n: Numeral, k: nat)
    requires ValidNumeral(n) && k < |Decimals(n)|
    ensures Leading(n, k + 1) == 10 * Leading(n, k) + (Decimals(n)[k] - 0x30)
  {
    var more := n.integer + Decimals(n)[..k + 1];
    assert more[..|more| - 1] == n.integer + Decimals(n)[..k];
  }

  lemma CountedIs(n: Numeral)
    requires ValidNumeral(n)
    ensures CountedDigits(Value(n.integer), |n.integer| - 1, Decimals(n)) == CountedTo(n, 0)
  {
    CountedFrom(n, 0);
    assert n.integer + Decimals(n)[..0] == n.integer;
    assert Decimals(n)[0..] == Decimals(n);
  }

  lemma TooBigIs(n: Numeral, text: Text, from: nat, p: nat, q: nat)
    requires ValidNumeral(n) && from < p <= q <= |text| && text[from..p] == n.integer
    requires FractionDigits(text, p, q) == if n.fraction.Some? then n.fraction.value else []
    ensures TooBig(n) <==> TooManyDigits(text, from, p)
                           || ExponentTooBig(n.exponent, MaxExponent(text, from, p, q))
  {
    LimitIs();
    CountedIs(n);
    assert text[from..p - 1] == n.integer[..|n.integer| - 1];
  }

  lemma IntegerOf(text: Text, from: nat)
    requires from <= |text| && IntegerEnd(text, from) > from
    ensures var integer := text[from..IntegerEnd(text, from)];
            Digits(integer) && (integer[0] == 0x30 ==> |integer| == 1)
    ensures text[from..] == text[from..IntegerEnd(text, from)] + text[IntegerEnd(text, from)..]
  {
  }

  lemma FractionOf(text: Text, p: nat) returns (fraction: Option<Text>)
    requires p <= |text| && FractionEnd(text, p).Lexed?
    ensures var q := FractionEnd(text, p).value;
            && (fraction.Some? ==> Digits(fraction.value)) && text[p..] == FractionText(fraction) + text[q..]
            && FractionDigits(text, p, q) == (if fraction.Some? then fraction.value else [])
            && (q > p <==> fraction.Some?)
  {
    var q := FractionEnd(text, p).value;
    if q > p {
      fraction := Some(text[p + 1..q]);
      assert text[p..] == [0x2E] + text[p + 1..q] + text[q..];
    } else {
      fraction := None;
    }
  }

  lemma Slices(text: Text, q: nat, start: nat, end: nat)
    requires q < start <= end <= |text|
    ensures text[q..] == [text[q]] + (text[q + 1..start] + text[start..end]) + text[end..]
  {
  }

  lemma ExponentAtLetter(text: Text, q: nat, maxExp: nat, start: nat, end: nat)
    requires q < |text| && ExponentEnd(text, q, maxExp) == Lexed(end, []) && end > q && start == ExponentStart(text, q)
    ensures (text[q] == 0x65 || text[q] == 0x45) && q < start < end <= |text| && end == DigitsEnd(text, start)
    ensures start == q + 2 ==> text[q + 1] == 0x2B || text[q + 1] == 0x2D
    ensures start == q + 1 || start == q + 2
    ensures start == q + 1 ==> text[q + 1] != 0x2D
    ensures text[q + 1] != 0x2D ==> Value(text[start..end]) <= maxExp
  {
  }

  lemma ExponentOf(text: Text, q: nat, maxExp: nat) returns (e: Option<Exponent>)
    requires q <= |text| && ExponentEnd(text, q, maxExp).Lexed?
    ensures var end := ExponentEnd(text, q, maxExp).value;
            && (e.Some? ==> ValidExponent(e.value)) && text[q..] == ExponentText(e) + text[end..]
            && !ExponentTooBig(e, maxExp) && (end > q <==> e.Some?)
  {
    var end := ExponentEnd(text, q, maxExp).value;
    if end > q {
      var start := ExponentStart(text, q);
      ExponentAtLetter(text, q, maxExp, start, end);
      e := ExponentFrom(text, q, start, end, maxExp);
    } else {
      e := None;
    }
  }

  lemma ExponentFrom(text: Text, q: nat, start: nat, end: nat, maxExp: nat) returns (e: Option<Exponent>)
    requires q < start < end <= |text| && (text[q] == 0x65 || text[q] == 0x45) && AllDigits(text[start..end])
    requires start == q + 1 || (start == q + 2 && (text[q + 1] == 0x2B || text[q + 1] == 0x2D))
    requires start == q + 1 ==> text[q + 1] != 0x2D
    requires text[q + 1] != 0x2D ==> Value(text[start..end]) <= maxExp
    ensures e.Some? && ValidExponent(e.value) && text[q..] == ExponentText(e) + text[end..]
    ensures !ExponentTooBig(e, maxExp)
  {
    var sign := if start == q + 2 then Some(text[q + 1]) else None;
    e := Some(Exponent(text[q], sign, text[start..end]));
    Slices(text, q, start, end);
    assert text[q + 1..start] == if sign.Some? then [sign.value] else [];
  }

  /** What the reader takes as a number is one, with this event, and it is not too big. */
  lemma NumberIsNumeral(text: Text) returns (n: Numeral)
    requires ReadNumber(text).Lexed?
    ensures ValidNumeral(n) && !TooBig(n) && NumeralEvent(n) == ReadNumber(text).value
    ensures text == NumeralText(n) + ReadNumber(text).rest
  {
    var from := if text != [] && text[0] == 0x2D then 1 else 0;
    var p := IntegerEnd(text, from);
    var q := FractionEnd(text, p).value;
    ReadNumberFrom(text, from, p, q);
    n := NumeralOf(text, from, p, q, MaxExponent(text, from, p, q));
    TooBigIs(n, text, from, p, q);
    EventIs(n, NumeralText(n));
  }

  /** The number between the ends that the reader has found. */
  lemma NumeralOf(text: Text, from: nat, p: nat, q: nat, maxExp: nat) returns (n: Numeral)
    requires text != [] && from == (if text[0] == 0x2D then 1 else 0) && from < p == IntegerEnd(text, from)
    requires FractionEnd(text, p) == Lexed(q, []) && ExponentEnd(text, q, maxExp).Lexed?
    ensures ValidNumeral(n) && n.minus == (from == 1) && n.integer == text[from..p]
    ensures FractionDigits(text, p, q) == (if n.fraction.Some? then n.fraction.value else [])
    ensures !ExponentTooBig(n.exponent, maxExp)
    ensures var end := ExponentEnd(text, q, maxExp).value;
            && text[..end] == NumeralText(n) && text == NumeralText(n) + text[end..]
            && (end > p <==> n.fraction.Some? || n.exponent.Some?)
  {
    IntegerOf(text, from);
    var fraction := FractionOf(text, p);
    var exponent := ExponentOf(text, q, maxExp);
    n := Numeral(from == 1, text[from..p], fraction, exponent);
    var rest := text[ExponentEnd(text, q, maxExp).value..];
    SignOf(text, n, from, text[from..]);
    NumeralIs(text, n, rest);
    LengthOf(text, n, from, p, q, rest);
  }

  lemma SignOf(text: Text, n: Numeral, from: nat, behind: Text)
    requires text != [] && from == (if text[0] == 0x2D then 1 else 0) && n.minus == (from == 1)
    requires behind == text[from..]
    ensures text == Sign(n) + behind
  {
  }

  lemma LengthOf(text: Text, n: Numeral, from: nat, p: nat, q: nat, rest: Text)
    requires from <= p <= q <= |text| && |rest| <= |text| && text == NumeralText(n) + rest
    ensures |NumeralText(n)| == |text| - |rest|
  {
  }

  lemma NumeralIs(text: Text, n: Numeral, rest: Text)
    requires text == Sign(n) + (n.integer + (FractionText(n.fraction) + (ExponentText(n.exponent) + rest)))
    ensures text == NumeralText(n) + rest && text[..|NumeralText(n)|] == NumeralText(n)
  {
  }
}
