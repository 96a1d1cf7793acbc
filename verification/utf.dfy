/** UTF-8 and UTF-16: one code point at a time, and whole texts.

  The bit operations are written as arithmetic on disjoint bit fields. */
module Utf {
  import opened JsonText
  import opened Wrappers

  /** A Unicode scalar value: any code point that is not a surrogate. */
  predicate IsScalar(c: nat) {
    c <= 0xD7FF || 0xE000 <= c <= 0x10FFFF
  }

  /// ## Section 4 of RFC 3629

  predicate Tail(c: Byte) {
    0x80 <= c <= 0xBF
  }

  /** The byte sequences of the `UTF8-char` rule. */
  predicate WellFormedChar(s: Text) {
    || (|s| == 1 && s[0] <= 0x7F)
    || (|s| == 2 && 0xC2 <= s[0] <= 0xDF && Tail(s[1]))
    || (|s| == 3 && Tail(s[2]) && (
          || (s[0] == 0xE0 && 0xA0 <= s[1] <= 0xBF)
          || (0xE1 <= s[0] <= 0xEC && Tail(s[1]))
          || (s[0] == 0xED && 0x80 <= s[1] <= 0x9F)
          || (0xEE <= s[0] <= 0xEF && Tail(s[1]))))
    || (|s| == 4 && Tail(s[2]) && Tail(s[3]) && (
          || (s[0] == 0xF0 && 0x90 <= s[1] <= 0xBF)
          || (0xF1 <= s[0] <= 0xF3 && Tail(s[1]))
          || (s[0] == 0xF4 && 0x80 <= s[1] <= 0x8F)))
  }

  /** The `UTF8-octets` rule: a concatenation of well-formed characters. */
  ghost predicate WellFormed(s: Text) {
    s == [] || exists n :: 0 < n <= |s| && WellFormedChar(s[..n]) && WellFormed(s[n..])
  }

  /// ## UTF-8 code

  function Encode(c: nat): (s: Text)
    requires c <= 0x10FFFF
    ensures s != []
  {
    if c <= 0x7F then [c]
    else if c <= 0x7FF then [0xC0 + c / 64, 0x80 + c % 64]
    else if c <= 0xFFFF then [0xE0 + c / 4096, 0x80 + c / 64 % 64, 0x80 + c % 64]
    else [0xF0 + c / 262144, 0x80 + c / 4096 % 64, 0x80 + c / 64 % 64, 0x80 + c % 64]
  }

  /** The table of byte types. */
  function GetRange(c: Byte): nat {
    if c < 0x80 then 0
    else if c < 0x90 then 0x10
    else if c < 0xA0 then 0x40
    else if c < 0xC0 then 0x20
    else if c < 0xC2 then 8
    else if c < 0xE0 then 2
    else if c == 0xE0 then 10
    else if c < 0xED then 3
    else if c == 0xED then 4
    else if c < 0xF0 then 3
    else if c == 0xF0 then 11
    else if c < 0xF4 then 6
    else if c == 0xF4 then 5
    else 8
  }

  predicate HasBit(n: nat, bit: nat)
    requires bit > 0
  {
    n / bit % 2 == 1
  }

  /** `(GetRange(c) & mask) != 0`, for masks that consist of the bits 0x10, 0x20 and 0x40. */
  predicate Trans(c: Byte, mask: nat) {
    var range := GetRange(c);
    || (HasBit(range, 0x10) && HasBit(mask, 0x10))
    || (HasBit(range, 0x20) && HasBit(mask, 0x20))
    || (HasBit(range, 0x40) && HasBit(mask, 0x40))
  }

  /** `Take` of a stream: the zero byte at the end of the text can be taken again and again. */
  function Rest(text: Text): Text {
    if text == [] then [] else text[1..]
  }

  /** `COPY`: one more byte of six bits. */
  function Copy(codepoint: nat, c: Byte): nat {
    codepoint * 64 + c % 64
  }

  /** `count` times `TAIL`. */
  function Tails(codepoint: nat, ok: bool, text: Text, count: nat): Option<(nat, Text)>
    decreases count
  {
    if count == 0 then if ok then Some((codepoint, text)) else None
    else Tails(Copy(codepoint, Peek(text)), ok && Trans(Peek(text), 0x70), Rest(text), count - 1)
  }

  /** A second byte that must lie in a particular range, and `count` tails. */
  function Second(codepoint: nat, mask: nat, text: Text, count: nat): Option<(nat, Text)> {
    Tails(Copy(codepoint, Peek(text)), Trans(Peek(text), mask), Rest(text), count)
  }

  /** The next code point and the text behind it. */
  function Decode(text: Text): Option<(nat, Text)> {
    var c, rest := Peek(text), Rest(text);
    if c < 0x80 then Some((c, rest))
    else
      var range := GetRange(c);
      if range == 2 then Tails(c % 64, true, rest, 1)
      else if range == 3 then Tails(c % 32, true, rest, 2)
      else if range == 4 then Second(c % 16, 0x50, rest, 1)
      else if range == 5 then Second(c % 8, 0x10, rest, 2)
      else if range == 6 then Tails(c % 4, true, rest, 3)
      else if range == 10 then Second(0, 0x20, rest, 1)
      else if range == 11 then Second(0, 0x60, rest, 2)
      else None
  }

  lemma TransTail(c: Byte)
    ensures Trans(c, 0x70) <==> Tail(c)
    ensures Trans(c, 0x50) <==> 0x80 <= c <= 0x9F
    ensures Trans(c, 0x10) <==> 0x80 <= c <= 0x8F
    ensures Trans(c, 0x20) <==> 0xA0 <= c <= 0xBF
    ensures Trans(c, 0x60) <==> 0x90 <= c <= 0xBF
  {
  }

  /// ## One character

  lemma TailsOne(codepoint: nat, ok: bool, text: Text)
    ensures Tails(codepoint, ok, text, 1)
            == if ok && Tail(Peek(text)) then Some((Copy(codepoint, Peek(text)), Rest(text))) else None
  {
    TransTail(Peek(text));
  }

  lemma TailsTwo(codepoint: nat, ok: bool, text: Text)
    ensures Tails(codepoint, ok, text, 2)
            == if ok && Tail(Peek(text)) && Tail(Peek(Rest(text)))
               then Some((Copy(Copy(codepoint, Peek(text)), Peek(Rest(text))), Rest(Rest(text)))) else None
  {
    TransTail(Peek(text));
    TailsOne(Copy(codepoint, Peek(text)), ok && Tail(Peek(text)), Rest(text));
  }

  /** The length that the first byte announces; zero for a byte that cannot come first. */
  function CharLength(c: Byte): nat {
    if c < 0x80 then 1
    else if c < 0xC2 then 0
    else if c < 0xE0 then 2
    else if c < 0xF0 then 3
    else if c < 0xF5 then 4
    else 0
  }

  /** The six bits that a tail byte carries. */
  function Payload(c: Byte): nat
    requires Tail(c)
  {
    c - 0x80
  }

  /** Four fields of six bits. */
  function Joined(a: nat, b: nat, c: nat, d: nat): nat {
    262144 * a + 4096 * b + 64 * c + d
  }

  lemma Fields(a: nat, b: nat, c: nat, d: nat)
    requires b < 64 && c < 64 && d < 64
    ensures var v := Joined(a, b, c, d);
            v / 262144 == a && v / 4096 == 64 * a + b && v / 64 == 4096 * a + 64 * b + c && v % 64 == d
  {
  }

  lemma FieldsRemainders(a: nat, b: nat, c: nat, d: nat)
    requires b < 64 && c < 64 && d < 64
    ensures Joined(a, b, c, d) / 4096 % 64 == b && Joined(a, b, c, d) / 64 % 64 == c
  {
    Fields(a, b, c, d);
  }

  /** The number in the payload bits of a well-formed character. */
  function CharValue(s: Text): nat
    requires WellFormedChar(s)
  {
    if |s| == 1 then s[0]
    else if |s| == 2 then Joined(0, 0, s[0] - 0xC0, s[1] - 0x80)
    else if |s| == 3 then Joined(0, s[0] - 0xE0, s[1] - 0x80, s[2] - 0x80)
    else Joined(s[0] - 0xF0, s[1] - 0x80, s[2] - 0x80, s[3] - 0x80)
  }

  /** What decoding should give, by the syntax alone. */
  function DecodedChar(text: Text): Option<(nat, Text)>
    requires text != []
  {
    var n := CharLength(text[0]);
    if 0 < n <= |text| && WellFormedChar(text[..n]) then Some((CharValue(text[..n]), text[n..])) else None
  }

  lemma DecodeTwo(text: Text)
    requires text != [] && CharLength(text[0]) == 2
    ensures Decode(text) == DecodedChar(text)
  {
    TailsOne(text[0] % 64, true, text[1..]);
  }

  lemma CopyTail(codepoint: nat, c: Byte)
    requires Tail(c)
    ensures Copy(codepoint, c) == 64 * codepoint + Payload(c)
  {
  }

  /** The last two of four bytes. */
  lemma LastTwo(codepoint: nat, ok: bool, text: Text)
    requires |text| >= 2
    ensures Tails(codepoint, ok, text, 2)
            == if ok && Tail(text[0]) && Tail(text[1])
               then Some((4096 * codepoint + 64 * Payload(text[0]) + Payload(text[1]), text[2..])) else None
  {
    TailsTwo(codepoint, ok, text);
    assert text[1..][1..] == text[2..];
    if Tail(text[0]) && Tail(text[1]) {
      CopyTail(codepoint, text[0]);
      CopyTail(Copy(codepoint, text[0]), text[1]);
    }
  }

  lemma TooShort(codepoint: nat, ok: bool, text: Text)
    requires |text| < 2
    ensures Tails(codepoint, ok, text, 2) == None
  {
    TailsTwo(codepoint, ok, text);
  }

  lemma DecodeThree(text: Text)
    requires text != [] && CharLength(text[0]) == 3
    ensures Decode(text) == DecodedChar(text)
  {
    var c, rest := text[0], text[1..];
    var second := Peek(rest);
    TransTail(second);
    var start := if c == 0xE0 then 0 else if c == 0xED then c % 16 else c % 32;
    var mask := if c == 0xE0 then 0x20 else if c == 0xED then 0x50 else 0x70;
    assert start == c - 0xE0 || (c == 0xE0 && start == 0);
    assert Decode(text) == Tails(Copy(start, second), Trans(second, mask), Rest(rest), 1);
    TailsOne(Copy(start, second), Trans(second, mask), Rest(rest));
    if |text| >= 3 {
      assert text[1..][1..] == text[2..] && text[2..][1..] == text[3..];
      if Tail(second) { CopyTail(start, second); }
      if Tail(text[2]) { CopyTail(Copy(start, second), text[2]); }
    }
  }

  lemma DecodeFour(text: Text)
    requires text != [] && CharLength(text[0]) == 4
    ensures Decode(text) == DecodedChar(text)
  {
    var c, rest := text[0], text[1..];
    var second := Peek(rest);
    TransTail(second);
    var start := if c == 0xF0 then 0 else if c == 0xF4 then c % 8 else c % 4;
    var mask := if c == 0xF0 then 0x60 else if c == 0xF4 then 0x10 else 0x70;
    assert start == c - 0xF0;
    assert Decode(text) == Tails(Copy(start, second), Trans(second, mask), Rest(rest), 2);
    if |text| >= 4 {
      LastTwo(Copy(start, second), Trans(second, mask), text[2..]);
      assert text[1..][1..] == text[2..] && text[2..][2..] == text[4..];
      if Tail(second) { CopyTail(start, second); }
    } else {
      TooShort(Copy(start, second), Trans(second, mask), Rest(rest));
    }
  }

  /** Decoding takes a well-formed character away, and fails if the text begins with none. */
  lemma DecodeIsDecodedChar(text: Text)
    requires text != []
    ensures Decode(text) == DecodedChar(text)
  {
    var n := CharLength(text[0]);
    if n == 2 {
      DecodeTwo(text);
    } else if n == 3 {
      DecodeThree(text);
    } else if n == 4 {
      DecodeFour(text);
    } else if n == 1 {
      assert text[..1] == [text[0]];
    }
  }

  lemma EncodeTwo(s: Text)
    requires WellFormedChar(s) && |s| == 2
    ensures IsScalar(CharValue(s)) && Encode(CharValue(s)) == s
  {
    Fields(0, 0, s[0] - 0xC0, s[1] - 0x80);
  }

  lemma EncodeThree(s: Text)
    requires WellFormedChar(s) && |s| == 3
    ensures IsScalar(CharValue(s)) && Encode(CharValue(s)) == s
  {
    Fields(0, s[0] - 0xE0, s[1] - 0x80, s[2] - 0x80);
    FieldsRemainders(0, s[0] - 0xE0, s[1] - 0x80, s[2] - 0x80);
  }

  lemma EncodeFour(s: Text)
    requires WellFormedChar(s) && |s| == 4
    ensures IsScalar(CharValue(s)) && Encode(CharValue(s)) == s
  {
    Fields(s[0] - 0xF0, s[1] - 0x80, s[2] - 0x80, s[3] - 0x80);
    FieldsRemainders(s[0] - 0xF0, s[1] - 0x80, s[2] - 0x80, s[3] - 0x80);
  }

  /** The encoder and the syntax agree: the well-formed characters are the encodings of the scalar values. */
  lemma EncodeCharValue(s: Text)
    requires WellFormedChar(s)
    ensures IsScalar(CharValue(s)) && Encode(CharValue(s)) == s
  {
    if |s| == 2 {
      EncodeTwo(s);
    } else if |s| == 3 {
      EncodeThree(s);
    } else if |s| == 4 {
      EncodeFour(s);
    }
  }

  lemma CharValueEncode(c: nat)
    requires IsScalar(c)
    ensures WellFormedChar(Encode(c)) && CharValue(Encode(c)) == c
  {
    if c <= 0xFFFF {
      Split(0, c);
    } else {
      Split(c / 262144, c);
    }
  }

  lemma Field(c: nat)
    ensures c == 64 * (c / 64) + c % 64 && c % 64 < 64
  {
  }

  lemma Quotients(c: nat)
    ensures c / 64 / 64 == c / 4096 && c / 4096 / 64 == c / 262144
  {
  }

  lemma Split(a: nat, c: nat)
    requires a == c / 262144
    ensures c == Joined(a, c / 4096 % 64, c / 64 % 64, c % 64)
    ensures a == 0 ==> c / 4096 % 64 == c / 4096
    ensures a == 0 && c / 4096 == 0 ==> c / 64 % 64 == c / 64
  {
    Quotients(c);
    Field(c);
    Field(c / 64);
    Field(c / 4096);
  }

  lemma DecodeProgress(text: Text)
    requires text != [] && Decode(text).Some?
    ensures |Decode(text).value.1| < |text| && IsScalar(Decode(text).value.0)
  {
    DecodeIsDecodedChar(text);
    EncodeCharValue(text[..CharLength(text[0])]);
  }

  /// ## Validation

  /** `count` times `TAIL`, when bytes are copied instead of decoded. */
  predicate ValidTails(text: Text, count: nat)
    decreases count
  {
    count == 0 || (Trans(Peek(text), 0x70) && ValidTails(Rest(text), count - 1))
  }

  /** How many bytes `Validate` copies for the next character; `None` if they are malformed. */
  function Validate(text: Text): Option<nat> {
    var c, rest := Peek(text), Rest(text);
    if c < 0x80 then Some(1)
    else
      var range := GetRange(c);
      if range == 2 then if ValidTails(rest, 1) then Some(2) else None
      else if range == 3 then if ValidTails(rest, 2) then Some(3) else None
      else if range == 4 then if Trans(Peek(rest), 0x50) && ValidTails(Rest(rest), 1) then Some(3) else None
      else if range == 5 then if Trans(Peek(rest), 0x10) && ValidTails(Rest(rest), 2) then Some(4) else None
      else if range == 6 then if ValidTails(rest, 3) then Some(4) else None
      else if range == 10 then if Trans(Peek(rest), 0x20) && ValidTails(Rest(rest), 1) then Some(3) else None
      else if range == 11 then if Trans(Peek(rest), 0x60) && ValidTails(Rest(rest), 2) then Some(4) else None
      else None
  }

  lemma {:induction false} ValidTailsIff(text: Text, count: nat)
    requires 1 <= count <= 3
    ensures ValidTails(text, count) <==> |text| >= count && forall i :: 0 <= i < count ==> Tail(text[i])
  {
    TransTail(Peek(text));
    if count > 1 {
      ValidTailsIff(Rest(text), count - 1);
      if text != [] && |text| >= count {
        assert forall i :: 1 <= i < count ==> text[i] == Rest(text)[i - 1];
        assert forall i :: 0 <= i < count - 1 ==> Rest(text)[i] == text[i + 1];
      }
    }
  }

  /** Validation accepts exactly the well-formed characters. */
  lemma ValidateIffWellFormed(text: Text)
    requires text != []
    ensures var n := CharLength(text[0]);
            Validate(text) == if 0 < n <= |text| && WellFormedChar(text[..n]) then Some(n) else None
  {
    var rest := text[1..];
    TransTail(Peek(rest));
    ValidTailsIff(rest, 1);
    ValidTailsIff(rest, 2);
    ValidTailsIff(rest, 3);
    ValidTailsIff(Rest(rest), 1);
    ValidTailsIff(Rest(rest), 2);
    assert forall i :: 1 <= i < |text| ==> text[i] == rest[i - 1];
    assert forall i :: 2 <= i < |text| ==> text[i] == Rest(rest)[i - 2];
  }

  /// ## Whole texts

  /** Decodes to the end. */
  function DecodeAll(text: Text): Option<seq<nat>>
    decreases |text|
  {
    if text == [] then Some([])
    else
      match Decode(text)
      case None => None
      case Some((c, rest)) =>
        DecodeProgress(text);
        match DecodeAll(rest)
        case None => None
        case Some(cs) => Some([c] + cs)
  }

  predicate AllScalars(cs: seq<nat>) {
    forall i :: 0 <= i < |cs| ==> IsScalar(cs[i])
  }

  function EncodeAll(cs: seq<nat>): Text
    requires AllScalars(cs)
  {
    if cs == [] then [] else Encode(cs[0]) + EncodeAll(cs[1..])
  }

  lemma CharLengthIs(text: Text, n: nat)
    requires 0 < n <= |text| && WellFormedChar(text[..n])
    ensures CharLength(text[0]) == n
  {
  }

  /** A well-formed text begins with a well-formed character, and goes on well-formed. */
  lemma WellFormedStep(text: Text)
    requires text != []
    ensures var n := CharLength(text[0]);
            WellFormed(text) <==> 0 < n <= |text| && WellFormedChar(text[..n]) && WellFormed(text[n..])
  {
    if WellFormed(text) {
      var m :| 0 < m <= |text| && WellFormedChar(text[..m]) && WellFormed(text[m..]);
      CharLengthIs(text, m);
    }
  }

  /** Decoding to the end succeeds exactly on the concatenations of well-formed characters. */
  lemma {:induction false} DecodesIffWellFormed(text: Text)
    ensures DecodeAll(text).Some? <==> WellFormed(text)
    decreases |text|
  {
    if text != [] {
      DecodeIsDecodedChar(text);
      WellFormedStep(text);
      var n := CharLength(text[0]);
      if 0 < n <= |text| && WellFormedChar(text[..n]) {
        DecodesIffWellFormed(text[n..]);
      }
    }
  }

  /** Decoding one character takes its encoding off the front. */
  lemma DecodeTakes(text: Text)
    requires text != [] && Decode(text).Some?
    ensures var (c, rest) := Decode(text).value;
            IsScalar(c) && Encode(c) + rest == text && |rest| < |text|
  {
    DecodeIsDecodedChar(text);
    var n := CharLength(text[0]);
    EncodeCharValue(text[..n]);
    assert text[..n] + text[n..] == text;
  }

  lemma EncodeMore(c: nat, cs: seq<nat>)
    requires IsScalar(c) && AllScalars(cs)
    ensures AllScalars([c] + cs) && EncodeAll([c] + cs) == Encode(c) + EncodeAll(cs)
  {
    assert ([c] + cs)[1..] == cs;
  }

  /** What has been decoded is encoded to the original text. */
  lemma {:induction false} EncodeDecoded(text: Text)
    requires DecodeAll(text).Some?
    ensures AllScalars(DecodeAll(text).value) && EncodeAll(DecodeAll(text).value) == text
    decreases |text|
  {
    if text != [] {
      DecodeTakes(text);
      var (c, rest) := Decode(text).value;
      EncodeDecoded(rest);
      EncodeMore(c, DecodeAll(rest).value);
    }
  }

  lemma DecodeEncode(c: nat, rest: Text)
    requires IsScalar(c)
    ensures Decode(Encode(c) + rest) == Some((c, rest))
  {
    var text := Encode(c) + rest;
    var n := |Encode(c)|;
    assert text[..n] == Encode(c) && text[n..] == rest;
    CharValueEncode(c);
    CharLengthIs(text, n);
    DecodeIsDecodedChar(text);
  }

  /** What has been encoded is decoded to the original code points. */
  lemma {:induction false} DecodeEncoded(cs: seq<nat>)
    requires AllScalars(cs)
    ensures DecodeAll(EncodeAll(cs)) == Some(cs)
  {
    if cs != [] {
      DecodeEncode(cs[0], EncodeAll(cs[1..]));
      DecodeEncoded(cs[1..]);
      assert [cs[0]] + cs[1..] == cs;
    }
  }

  /// ## UTF-16

  type Unit = u: int | 0 <= u < 0x10000

  function Encode16(c: nat): (s: seq<Unit>)
    requires IsScalar(c)
    ensures s != []
  {
    if c <= 0xFFFF then [c]
    else
      var v := c - 0x10000;
      [0xD800 + v / 0x400, 0xDC00 + v % 0x400]
  }

  /** The code point of a surrogate pair: ten bits from each. */
  function FromSurrogates(high: nat, low: nat): nat {
    high % 0x400 * 0x400 + low % 0x400 + 0x10000
  }

  /** A unit, or a pair of surrogates; the zero unit at the end can be taken again and again. */
  function Decode16(text: seq<Unit>): Option<(nat, seq<Unit>)>
    requires text != []
  {
    var c, rest := text[0], text[1..];
    if c < 0xD800 || c > 0xDFFF then Some((c, rest))
    else if c <= 0xDBFF then
      if rest != [] && 0xDC00 <= rest[0] <= 0xDFFF then
        Some((FromSurrogates(c, rest[0]), rest[1..]))
      else None
    else None
  }

  lemma Decode16Scalar(text: seq<Unit>)
    requires text != [] && Decode16(text).Some?
    ensures IsScalar(Decode16(text).value.0)
  {
  }

  function DecodeAll16(text: seq<Unit>): Option<seq<nat>>
    decreases |text|
  {
    if text == [] then Some([])
    else
      match Decode16(text)
      case None => None
      case Some((c, rest)) =>
        match DecodeAll16(rest)
        case None => None
        case Some(cs) => Some([c] + cs)
  }

  function EncodeAll16(cs: seq<nat>): seq<Unit>
    requires AllScalars(cs)
  {
    if cs == [] then [] else Encode16(cs[0]) + EncodeAll16(cs[1..])
  }

  lemma DecodeEncode16(c: nat, rest: seq<Unit>)
    requires IsScalar(c)
    ensures Decode16(Encode16(c) + rest) == Some((c, rest))
  {
    var text := Encode16(c) + rest;
    assert text[|Encode16(c)|..] == rest;
    if c > 0xFFFF {
      var v := c - 0x10000;
      assert text[1..][0] == text[1] && text[1..][1..] == rest;
      assert (0xD800 + v / 0x400) % 0x400 == v / 0x400 && (0xDC00 + v % 0x400) % 0x400 == v % 0x400;
    }
  }

  lemma {:induction false} DecodeEncoded16(cs: seq<nat>)
    requires AllScalars(cs)
    ensures DecodeAll16(EncodeAll16(cs)) == Some(cs)
  {
    if cs != [] {
      DecodeEncode16(cs[0], EncodeAll16(cs[1..]));
      DecodeEncoded16(cs[1..]);
      assert [cs[0]] + cs[1..] == cs;
    }
  }

  predicate IsHigh(u: Unit) {
    0xD800 <= u <= 0xDBFF
  }

  predicate IsLow(u: Unit) {
    0xDC00 <= u <= 0xDFFF
  }

  /** Section 2 of RFC 2781: every high surrogate is followed by a low one, and every low one follows a
      high one. */
  predicate Paired(text: seq<Unit>) {
    && (forall i :: 0 <= i < |text| && IsHigh(text[i]) ==> i + 1 < |text| && IsLow(text[i + 1]))
    && (forall i :: 0 <= i < |text| && IsLow(text[i]) ==> i > 0 && IsHigh(text[i - 1]))
  }

  /** The first `n` units are one code point. */
  lemma PairedBehind(text: seq<Unit>, n: nat)
    requires n <= |text| && ((n == 1 && !IsHigh(text[0]) && !IsLow(text[0]))
                             || (n == 2 && IsHigh(text[0]) && IsLow(text[1])))
    ensures Paired(text) <==> Paired(text[n..])
  {
    var rest := text[n..];
    assert forall i :: 0 <= i < |rest| ==> rest[i] == text[i + n];
    if Paired(text) {
      forall i | 0 <= i < |rest| && IsLow(rest[i])
        ensures i > 0 && IsHigh(rest[i - 1])
      {
        assert IsLow(text[i + n]);
      }
    }
    if Paired(rest) {
      forall i | 0 <= i < |text| && IsHigh(text[i])
        ensures i + 1 < |text| && IsLow(text[i + 1])
      {
        assert i >= n ==> IsHigh(rest[i - n]);
      }
      forall i | 0 <= i < |text| && IsLow(text[i])
        ensures i > 0 && IsHigh(text[i - 1])
      {
        assert i >= n ==> IsLow(rest[i - n]) && i - n > 0 && IsHigh(rest[i - n - 1]);
      }
    }
  }

  /** Decoding to the end succeeds exactly on the texts whose surrogates are paired. */
  lemma {:induction false} DecodesIffPaired(text: seq<Unit>)
    ensures DecodeAll16(text).Some? <==> Paired(text)
    decreases |text|
  {
    if text != [] {
      if Decode16(text).Some? {
        var n := if IsHigh(text[0]) then 2 else 1;
        assert text[1..][0..] == text[1..] && (n == 2 ==> text[1..][0] == text[1] && text[1..][1..] == text[2..]);
        PairedBehind(text, n);
        DecodesIffPaired(text[n..]);
      } else {
        assert IsLow(text[0]) || (IsHigh(text[0]) && (|text| > 1 ==> !IsLow(text[1..][0])));
      }
    }
  }

  lemma DecodeTakes16(text: seq<Unit>)
    requires text != [] && Decode16(text).Some?
    ensures var (c, rest) := Decode16(text).value;
            IsScalar(c) && Encode16(c) + rest == text && |rest| < |text|
  {
    if IsHigh(text[0]) {
      var high: nat, low: nat := text[0] - 0xD800, text[1] - 0xDC00;
      assert text[1..][0] == text[1] && text[1..][1..] == text[2..];
      assert text[0] % 0x400 == high && text[1] % 0x400 == low;
      assert (high * 0x400 + low) / 0x400 == high && (high * 0x400 + low) % 0x400 == low;
    }
  }

  lemma EncodeMore16(c: nat, cs: seq<nat>)
    requires IsScalar(c) && AllScalars(cs)
    ensures AllScalars([c] + cs) && EncodeAll16([c] + cs) == Encode16(c) + EncodeAll16(cs)
  {
    assert ([c] + cs)[1..] == cs;
  }

  /** What has been decoded is encoded to the original units. */
  lemma {:induction false} EncodeDecoded16(text: seq<Unit>)
    requires DecodeAll16(text).Some?
    ensures AllScalars(DecodeAll16(text).value) && EncodeAll16(DecodeAll16(text).value) == text
    decreases |text|
  {
    if text != [] {
      DecodeTakes16(text);
      var (c, rest) := Decode16(text).value;
      EncodeDecoded16(rest);
      EncodeMore16(c, DecodeAll16(rest).value);
    }
  }

  /// ## Transcoding

  /** The transcoder from UTF-8 to UTF-16, applied to the end of a text. */
  function Transcode8To16(text: Text): Option<seq<Unit>>
    decreases |text|
  {
    if text == [] then Some([])
    else
      match Decode(text)
      case None => None
      case Some((c, rest)) =>
        DecodeProgress(text);
        match Transcode8To16(rest)
        case None => None
        case Some(units) => Some(Encode16(c) + units)
  }

  /** The transcoder from UTF-16 to UTF-8. */
  function Transcode16To8(text: seq<Unit>): Option<Text>
    decreases |text|
  {
    if text == [] then Some([])
    else
      match Decode16(text)
      case None => None
      case Some((c, rest)) =>
        Decode16Scalar(text);
        match Transcode16To8(rest)
        case None => None
        case Some(bytes) => Some(Encode(c) + bytes)
  }

  lemma {:induction false} TranscodedCodePoints(text: Text)
    requires DecodeAll(text).Some?
    ensures AllScalars(DecodeAll(text).value)
    ensures Transcode8To16(text) == Some(EncodeAll16(DecodeAll(text).value))
    decreases |text|
  {
    if text != [] {
      DecodeIsDecodedChar(text);
      var n := CharLength(text[0]);
      EncodeCharValue(text[..n]);
      TranscodedCodePoints(text[n..]);
      assert DecodeAll(text).value[1..] == DecodeAll(text[n..]).value;
    }
  }

  lemma {:induction false} TranscodedBack(cs: seq<nat>)
    requires AllScalars(cs)
    ensures Transcode16To8(EncodeAll16(cs)) == Some(EncodeAll(cs))
  {
    if cs != [] {
      DecodeEncode16(cs[0], EncodeAll16(cs[1..]));
      TranscodedBack(cs[1..]);
    }
  }

  /** UTF-8 to UTF-16 and back is the identity on well-formed texts, and no other text gets through. */
  lemma TranscodeThereAndBack(text: Text)
    ensures WellFormed(text) ==>
              && Transcode8To16(text).Some?
              && Transcode16To8(Transcode8To16(text).value) == Some(text)
    ensures Transcode8To16(text).Some? ==> WellFormed(text)
  {
    DecodesIffWellFormed(text);
    if WellFormed(text) {
      TranscodedCodePoints(text);
      TranscodedBack(DecodeAll(text).value);
      EncodeDecoded(text);
    }
    if Transcode8To16(text).Some? {
      TranscodedIsDecoded(text);
    }
  }

  lemma {:induction false} TranscodedIsDecoded(text: Text)
    requires Transcode8To16(text).Some?
    ensures DecodeAll(text).Some?
    decreases |text|
  {
    if text != [] {
      TranscodedIsDecoded(Decode(text).value.1);
    }
  }
}
