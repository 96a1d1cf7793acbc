/** The text of JSON pointers as a grammar, written with the numbers of its characters, and that exactly
  the texts of the grammar are read, to the names that it gives them. */
module PointerGrammar {
  import opened JsonText
  import opened PointerTree
  import opened PointerText
  import opened Wrappers
  import G = JsonGrammar
  import T = JsonGrammarTokens
  import U = Utf

  /// ## The grammar

  /** What a name is written with: a byte as it is, an ASCII byte as a triplet, an escape whose tilde may be
      a triplet, or a longer character as triplets. */
  datatype Part =
    | Plain(c: Byte)
    | Encoded(c: Byte, triplet: Text)
    | Escaped(tilde: Text, digit: Byte)
    | Longer(bytes: Text, triplets: Text)

  /** The characters that stand for themselves in a fragment: letters, digits, `-`, `.` and `_`. */
  predicate Unreserved(c: Byte) {
    || 0x41 <= c <= 0x5A || 0x61 <= c <= 0x7A || 0x30 <= c <= 0x39
    || c == 0x2D || c == 0x2E || c == 0x5F
  }

  /** A percent sign and two hexadecimal digits. */
  predicate TripletOf(text: Text, b: Byte) {
    && |text| == 3 && text[0] == 0x25 && text[1] in G.HEX && text[2] in G.HEX
    && b == 16 * G.Hex(text[1]) + G.Hex(text[2])
  }

  predicate TripletsOf(text: Text, bytes: Text) {
    |text| == 3 * |bytes| && forall i :: 0 <= i < |bytes| ==> TripletOf(text[3 * i..3 * i + 3], bytes[i])
  }

  predicate ValidPart(uri: bool, p: Part) {
    match p
    case Plain(c) => c != 0x2F && c != 0x7E && (uri ==> Unreserved(c))
    case Encoded(c, triplet) => uri && TripletOf(triplet, c) && c < 0x80 && c != 0x7E
    case Escaped(tilde, digit) =>
      (tilde == [0x7E] || (uri && TripletOf(tilde, 0x7E))) && (digit == 0x30 || digit == 0x31)
    case Longer(bytes, triplets) => uri && |bytes| > 1 && U.WellFormedChar(bytes) && TripletsOf(triplets, bytes)
  }

  function PartText(p: Part): Text {
    match p
    case Plain(c) => [c]
    case Encoded(_, triplet) => triplet
    case Escaped(tilde, digit) => tilde + [digit]
    case Longer(_, triplets) => triplets
  }

  /** Tilde and zero stand for a tilde, tilde and one for a solidus. */
  function PartBytes(p: Part): Text {
    match p
    case Plain(c) => [c]
    case Encoded(c, _) => [c]
    case Escaped(_, digit) => if digit == 0x30 then [0x7E] else [0x2F]
    case Longer(bytes, _) => bytes
  }

  type Name = seq<Part>

  predicate ValidName(uri: bool, name: Name) {
    forall i :: 0 <= i < |name| ==> ValidPart(uri, name[i])
  }

  function NameText(name: Name): Text {
    if name == [] then [] else PartText(name[0]) + NameText(name[1..])
  }

  function NameBytes(name: Name): Text {
    if name == [] then [] else PartBytes(name[0]) + NameBytes(name[1..])
  }

  function NamesText(names: seq<Name>): Text {
    if names == [] then [] else [0x2F] + (NameText(names[0]) + NamesText(names[1..]))
  }

  function NamesBytes(names: seq<Name>): seq<Text> {
    if names == [] then [] else [NameBytes(names[0])] + NamesBytes(names[1..])
  }

  /** The source is a pointer: the names behind solidi, and in a fragment behind a number sign. */
  predicate IsPointer(names: seq<Name>, uri: bool, source: Text) {
    && (forall i :: 0 <= i < |names| ==> ValidName(uri, names[i]))
    && source == (if uri then [0x23] else []) + NamesText(names)
  }

  /// ## Texts of the grammar are read

  lemma TripletIs(text: Text)
    ensures IsTriplet(text) <==> |text| >= 3 && text[0] == 0x25 && text[1] in G.HEX && text[2] in G.HEX
    ensures IsTriplet(text) ==> TripletOf(text[..3], TripletByte(text))
  {
    if |text| >= 3 {
      T.HexIs(text[1]);
      T.HexIs(text[2]);
    }
  }

  lemma TripletIsRead(triplet: Text, b: Byte, rest: Text)
    requires TripletOf(triplet, b)
    ensures IsTriplet(triplet + rest) && TripletByte(triplet + rest) == b && (triplet + rest)[3..] == rest
  {
    var text := triplet + rest;
    assert text[..3] == triplet;
    TripletIs(text);
  }

  lemma MoreTriplets(text: Text, bytes: Text)
    requires TripletsOf(text, bytes) && bytes != []
    ensures TripletOf(text[..3], bytes[0]) && TripletsOf(text[3..], bytes[1..])
  {
    assert text[..3] == text[3 * 0..3 * 0 + 3];
    forall i | 0 <= i < |bytes[1..]|
      ensures TripletOf(text[3..][3 * i..3 * i + 3], bytes[1..][i])
    {
      var j := i + 1;
      assert TripletOf(text[3 * j..3 * j + 3], bytes[j]);
      assert text[3..][3 * i..3 * i + 3] == text[3 * j..3 * j + 3];
    }
  }

  lemma {:induction false} TripletsAreRead(triplets: Text, bytes: Text, rest: Text, n: nat)
    requires TripletsOf(triplets, bytes) && |bytes| <= n
    ensures |bytes| <= |Triplets(triplets + rest, n)| && Triplets(triplets + rest, n)[..|bytes|] == bytes
    decreases |bytes|
  {
    if bytes != [] {
      MoreTriplets(triplets, bytes);
      var more := triplets[3..] + rest;
      assert triplets == triplets[..3] + triplets[3..];
      Regrouped(triplets[..3], triplets[3..], rest);
      TripletIsRead(triplets[..3], bytes[0], more);
      TripletsAreRead(triplets[3..], bytes[1..], rest, n - 1);
      FirstAndMore(bytes, Triplets(more, n - 1));
    }
  }

  lemma CharIsRead(triplets: Text, bytes: Text, rest: Text)
    requires U.WellFormedChar(bytes) && TripletsOf(triplets, bytes)
    ensures PercentChar(triplets + rest) == Some((bytes, rest))
  {
    var text, n := triplets + rest, |bytes|;
    TripletsAreRead(triplets, bytes, rest, 4);
    var all := Triplets(text, 4);
    U.CharLengthIs(all, n);
    U.ValidateIffWellFormed(all);
    assert text[3 * n..] == rest;
  }

  lemma OneTriplet(triplet: Text, b: Byte)
    requires TripletOf(triplet, b)
    ensures TripletsOf(triplet, [b])
  {
    assert triplet[3 * 0..3 * 0 + 3] == triplet;
  }

  lemma EscapeIsRead(uri: bool, tilde: Text, digit: Byte, rest: Text)
    requires ValidPart(uri, Escaped(tilde, digit))
    ensures NextPiece(uri, tilde + ([digit] + rest)) == Done(PartBytes(Escaped(tilde, digit)), rest)
  {
    var behind := [digit] + rest;
    var text := tilde + behind;
    assert behind[1..] == rest;
    if tilde == [0x7E] {
      assert text[1..] == behind;
    } else {
      OneTriplet(tilde, 0x7E);
      CharIsRead(tilde, [0x7E], behind);
    }
  }

  lemma PartIsRead(uri: bool, p: Part, rest: Text)
    requires ValidPart(uri, p)
    ensures var text := PartText(p) + rest;
            text != [] && text[0] != 0x2F && NextPiece(uri, text) == Done(PartBytes(p), rest)
  {
    match p
    case Plain(c) =>
      assert ([c] + rest)[1..] == rest;
    case Encoded(c, triplet) =>
      OneTriplet(triplet, c);
      CharIsRead(triplet, [c], rest);
    case Escaped(tilde, digit) =>
      Regrouped(tilde, [digit], rest);
      EscapeIsRead(uri, tilde, digit, rest);
    case Longer(bytes, triplets) =>
      MoreTriplets(triplets, bytes);
      CharIsRead(triplets, bytes, rest);
  }

  lemma {:induction false} NameIsRead(uri: bool, name: Name, rest: Text)
    requires ValidName(uri, name) && (rest == [] || rest[0] == 0x2F)
    ensures ReadName(uri, NameText(name) + rest) == Done(NameBytes(name), rest)
    decreases |name|
  {
    if name == [] {
      assert [] + rest == rest;
    } else {
      Regrouped(PartText(name[0]), NameText(name[1..]), rest);
      PartIsRead(uri, name[0], NameText(name[1..]) + rest);
      NameIsRead(uri, name[1..], rest);
    }
  }

  lemma FirstNameIsRead(uri: bool, name: Name, more: Text)
    requires ValidName(uri, name) && (more == [] || more[0] == 0x2F)
    ensures var text := [0x2F] + (NameText(name) + more);
            && text[0] == 0x2F && ReadName(uri, text[1..]) == Done(NameBytes(name), more)
  {
    NameIsRead(uri, name, more);
    T.CutAt([0x2F], NameText(name) + more);
  }

  lemma {:induction false} NamesAreRead(uri: bool, names: seq<Name>)
    requires forall i :: 0 <= i < |names| ==> ValidName(uri, names[i])
    ensures (NamesText(names) == [] || NamesText(names)[0] == 0x2F)
    ensures ReadTokens(uri, NamesText(names)) == Done(Tokens(NamesBytes(names)), [])
    decreases |names|
  {
    if names != [] {
      NamesAreRead(uri, names[1..]);
      FirstNameIsRead(uri, names[0], NamesText(names[1..]));
      assert names == [names[0]] + names[1..];
      MoreNames(names[0], names[1..]);
    }
  }

  /// ## What is read is a text of the grammar

  lemma {:induction false} TripletsAre(text: Text, n: nat, k: nat)
    requires k <= |Triplets(text, n)|
    ensures TripletsOf(text[..3 * k], Triplets(text, n)[..k])
    decreases n
  {
    if k > 0 {
      TripletIs(text);
      TripletsAre(text[3..], n - 1, k - 1);
      var first, more := TripletByte(text), Triplets(text[3..], n - 1);
      assert text[3..][..3 * (k - 1)] == text[..3 * k][3..] && text[..3 * k][..3] == text[..3];
      assert ([first] + more)[..k] == [first] + more[..k - 1];
      JoinTriplets(text[..3 * k], first, more[..k - 1]);
    }
  }

  lemma JoinTriplets(text: Text, b: Byte, bytes: Text)
    requires |text| == 3 * |bytes| + 3 && TripletOf(text[..3], b) && TripletsOf(text[3..], bytes)
    ensures TripletsOf(text, [b] + bytes)
  {
    var all := [b] + bytes;
    forall i | 0 <= i < |all|
      ensures TripletOf(text[3 * i..3 * i + 3], all[i])
    {
      if i > 0 {
        var j := i - 1;
        assert TripletOf(text[3..][3 * j..3 * j + 3], bytes[j]);
        assert text[3..][3 * j..3 * j + 3] == text[3 * i..3 * i + 3];
      }
    }
  }

  lemma CharIs(text: Text)
    requires PercentChar(text).Some?
    ensures var (bytes, rest) := PercentChar(text).value;
            && U.WellFormedChar(bytes) && TripletsOf(text[..3 * |bytes|], bytes)
            && text == text[..3 * |bytes|] + rest
  {
    var all := Triplets(text, 4);
    U.ValidateIffWellFormed(all);
    TripletsAre(text, 4, U.Validate(all).value);
  }

  /** The part behind a byte that has been read from `head`. */
  lemma UnescapedIs(head: Text, c: Byte, rest: Text)
    requires Unescaped(c, rest).Some?
    ensures var (c', rest') := Unescaped(c, rest).value;
            if c == 0x7E then
              rest != [] && (rest[0] == 0x30 || rest[0] == 0x31)
              && head + rest == PartText(Escaped(head, rest[0])) + rest' && [c'] == PartBytes(Escaped(head, rest[0]))
            else c' == c && rest' == rest
  {
    if c == 0x7E {
      assert rest == [rest[0]] + rest[1..];
      Regrouped(head, [rest[0]], rest[1..]);
    }
  }

  lemma PartOf(uri: bool, text: Text) returns (p: Part)
    requires text != [] && text[0] != 0x2F && NextPiece(uri, text).Done?
    ensures ValidPart(uri, p) && NextPiece(uri, text).value == PartBytes(p)
    ensures text == PartText(p) + NextPiece(uri, text).rest
  {
    if uri && text[0] == 0x25 {
      CharIs(text);
      var (bytes, rest) := PercentChar(text).value;
      var triplets := text[..3 * |bytes|];
      if |bytes| > 1 {
        p := Longer(bytes, triplets);
      } else {
        MoreTriplets(triplets, bytes);
        assert triplets[..3] == triplets;
        UnescapedIs(triplets, bytes[0], rest);
        p := if bytes[0] == 0x7E then Escaped(triplets, rest[0]) else Encoded(bytes[0], triplets);
      }
    } else {
      assert text == [text[0]] + text[1..];
      UnescapedIs([text[0]], text[0], text[1..]);
      p := if text[0] == 0x7E then Escaped([0x7E], text[1]) else Plain(text[0]);
    }
  }

  lemma MoreParts(p: Part, more: Name)
    ensures NameText([p] + more) == PartText(p) + NameText(more)
    ensures NameBytes([p] + more) == PartBytes(p) + NameBytes(more)
  {
    assert ([p] + more)[1..] == more;
  }

  lemma {:induction false} NameIs(uri: bool, text: Text) returns (name: Name)
    requires ReadName(uri, text).Done?
    ensures ValidName(uri, name) && ReadName(uri, text).value == NameBytes(name)
    ensures text == NameText(name) + ReadName(uri, text).rest
    decreases |text|
  {
    name := [];
    if text != [] && text[0] != 0x2F {
      var p := PartOf(uri, text);
      var more := NameIs(uri, NextPiece(uri, text).rest);
      MoreParts(p, more);
      Regrouped(PartText(p), NameText(more), ReadName(uri, text).rest);
      name := [p] + more;
    }
  }

  lemma MoreNames(name: Name, more: seq<Name>)
    ensures NamesText([name] + more) == [0x2F] + (NameText(name) + NamesText(more))
    ensures NamesBytes([name] + more) == [NameBytes(name)] + NamesBytes(more)
    ensures Tokens(NamesBytes([name] + more)) == [TokenOf(NameBytes(name))] + Tokens(NamesBytes(more))
  {
    assert ([name] + more)[1..] == more;
  }

  lemma {:induction false} NamesAre(uri: bool, text: Text) returns (names: seq<Name>)
    requires (text == [] || text[0] == 0x2F) && ReadTokens(uri, text).Done?
    ensures forall i :: 0 <= i < |names| ==> ValidName(uri, names[i])
    ensures text == NamesText(names) && ReadTokens(uri, text) == Done(Tokens(NamesBytes(names)), [])
    decreases |text|
  {
    names := [];
    if text != [] {
      assert text == [0x2F] + text[1..];
      var name := NameIs(uri, text[1..]);
      var more := NamesAre(uri, ReadName(uri, text[1..]).rest);
      MoreNames(name, more);
      names := [name] + more;
    }
  }

  /// ## What is refused

  /** What is wrong at the beginning of a text in a name, if neither a part nor the end is there. */
  ghost predicate Fault(uri: bool, text: Text, error: PointerError) {
    match error
    case CharacterMustPercentEncode =>
      uri && text != [] && !Unreserved(text[0]) && text[0] != 0x25 && text[0] != 0x7E && text[0] != 0x2F
    case InvalidPercentEncoding =>
      uri && text != [] && text[0] == 0x25
      && !exists bytes, n :: 0 <= n <= |text| && U.WellFormedChar(bytes) && TripletsOf(text[..n], bytes)
    case InvalidEscape =>
      exists tilde, rest ::
        && text == tilde + rest && (tilde == [0x7E] || (uri && TripletOf(tilde, 0x7E)))
        && (rest == [] || (rest[0] != 0x30 && rest[0] != 0x31))
    case TokenMustBeginWithSolidus => false
  }

  lemma FaultFails(uri: bool, text: Text, error: PointerError)
    requires Fault(uri, text, error)
    ensures text != [] && text[0] != 0x2F && NextPiece(uri, text) == Bad(error)
  {
    match error
    case CharacterMustPercentEncode =>
    case InvalidPercentEncoding =>
      if PercentChar(text).Some? {
        CharIs(text);
        assert U.WellFormedChar(PercentChar(text).value.0);
      }
    case InvalidEscape =>
      var tilde, rest :| text == tilde + rest && (tilde == [0x7E] || (uri && TripletOf(tilde, 0x7E)))
                         && (rest == [] || (rest[0] != 0x30 && rest[0] != 0x31));
      if tilde == [0x7E] {
        assert text[1..] == rest;
      } else {
        OneTriplet(tilde, 0x7E);
        CharIsRead(tilde, [0x7E], rest);
      }
  }

  /** A name is refused where the first fault is, and as it says. */
  lemma {:induction false} FaultBehindFails(uri: bool, name: Name, text: Text, error: PointerError)
    requires ValidName(uri, name) && Fault(uri, text, error)
    ensures ReadName(uri, NameText(name) + text) == Bad(error)
    decreases |name|
  {
    if name == [] {
      assert [] + text == text;
      FaultFails(uri, text, error);
    } else {
      Regrouped(PartText(name[0]), NameText(name[1..]), text);
      PartIsRead(uri, name[0], NameText(name[1..]) + text);
      FaultBehindFails(uri, name[1..], text, error);
    }
  }

  /** The names before the one with the fault do not matter. */
  lemma {:induction false} FaultInNameFails(uri: bool, names: seq<Name>, name: Name, text: Text, error: PointerError)
    requires (forall i :: 0 <= i < |names| ==> ValidName(uri, names[i])) && ValidName(uri, name)
    requires Fault(uri, text, error)
    ensures ReadTokens(uri, NamesText(names) + ([0x2F] + (NameText(name) + text))) == Bad(error)
    decreases |names|
  {
    var last := [0x2F] + (NameText(name) + text);
    T.CutAt([0x2F], NameText(name) + text);
    if names == [] {
      assert [] + last == last;
      FaultBehindFails(uri, name, text, error);
    } else {
      var more := NamesText(names[1..]) + last;
      Regrouped(NameText(names[0]), NamesText(names[1..]), last);
      Regrouped([0x2F], NameText(names[0]) + NamesText(names[1..]), last);
      SolidusNext(names[1..], last);
      FirstNameIsRead(uri, names[0], more);
      FaultInNameFails(uri, names[1..], name, text, error);
    }
  }

  lemma SolidusNext(names: seq<Name>, last: Text)
    requires last != [] && last[0] == 0x2F
    ensures (NamesText(names) + last)[0] == 0x2F
  {
  }

  lemma NoSolidusRefused(uri: bool, text: Text)
    requires text != [] && text[0] != 0x2F && (!uri ==> text[0] != 0x23)
    ensures ReadPointer((if uri then [0x23] else []) + text) == Bad(TokenMustBeginWithSolidus)
  {
    T.CutAt([0x23], text);
    assert [] + text == text;
  }

  /** A pointer is refused with the error of its first fault. */
  lemma FaultRefused(uri: bool, names: seq<Name>, name: Name, text: Text, error: PointerError)
    requires (forall i :: 0 <= i < |names| ==> ValidName(uri, names[i])) && ValidName(uri, name)
    requires Fault(uri, text, error)
    ensures ReadPointer((if uri then [0x23] else []) + (NamesText(names) + ([0x2F] + (NameText(name) + text))))
         == Bad(error)
  {
    var source := NamesText(names) + ([0x2F] + (NameText(name) + text));
    FaultInNameFails(uri, names, name, text, error);
    SolidusNext(names, [0x2F] + (NameText(name) + text));
    T.CutAt([0x23], source);
    assert [] + source == source;
  }

  /// ## The theorems

  lemma PointerIsRead(names: seq<Name>, uri: bool, source: Text)
    requires IsPointer(names, uri, source)
    ensures ReadPointer(source) == Done(Tokens(NamesBytes(names)), [])
  {
    NamesAreRead(uri, names);
    if uri {
      T.CutAt([0x23], NamesText(names));
    } else {
      assert [] + NamesText(names) == NamesText(names);
    }
  }

  lemma ParsedIsPointer(source: Text) returns (names: seq<Name>, uri: bool)
    requires ReadPointer(source).Done?
    ensures IsPointer(names, uri, source) && ReadPointer(source) == Done(Tokens(NamesBytes(names)), [])
  {
    uri := source != [] && source[0] == 0x23;
    var text := if uri then source[1..] else source;
    names := NamesAre(uri, text);
    assert source == (if uri then [0x23] else []) + text;
  }

  /** A text is read exactly if it is a pointer of the grammar, as a string or as a fragment, and then its
      tokens are those of the names of its derivation. */
  lemma ParsesIff(source: Text, ts: Pointer)
    ensures ReadPointer(source) == Done(ts, [])
       <==> exists names, uri :: IsPointer(names, uri, source) && Tokens(NamesBytes(names)) == ts
    ensures ReadPointer(source).Done? ==> ReadPointer(source).rest == []
  {
    if ReadPointer(source).Done? {
      var names, uri := ParsedIsPointer(source);
    }
    forall names, uri | IsPointer(names, uri, source) && Tokens(NamesBytes(names)) == ts
      ensures ReadPointer(source) == Done(ts, [])
    {
      PointerIsRead(names, uri, source);
    }
  }

  /** What `Stringify` writes is a text of the grammar with these names. In a fragment it holds nothing but
      characters that stand for themselves, triplets, escapes and solidi. */
  lemma StringifiedIs(uri: bool, names: seq<Text>) returns (derived: seq<Name>)
    requires Stringified(uri, Tokens(names)).Some?
    ensures IsPointer(derived, uri, Stringified(uri, Tokens(names)).value)
    ensures NamesBytes(derived) == names
  {
    var text := WrittenTokens(uri, Tokens(names)).value;
    ReadsWrittenTokens(uri, names);
    derived := NamesAre(uri, text);
    assert forall i :: 0 <= i < |names| ==> Tokens(NamesBytes(derived))[i].name == names[i];
    assert NamesBytes(derived) == names;
  }
}
