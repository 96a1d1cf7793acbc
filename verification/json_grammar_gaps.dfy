/** What the reader skips is what the grammar has between its tokens. */
module JsonGrammarGaps {
  import opened JsonText
  import opened JsonReader
  import opened JsonGrammar
  import opened Wrappers

  /** The text begins with nothing that is skipped. */
  predicate Stops(rest: Text) {
    rest == [] || (rest[0] != 0x20 && rest[0] != 0x09 && rest[0] != 0x0A && rest[0] != 0x0D && rest[0] != 0x2F)
  }

  /// ## Gaps are skipped

  lemma {:induction false} BlockIsSkipped(body: Text, rest: Text)
    requires ValidPiece(Flags(true, false, false), Block(body))
    ensures BlockEnd(body + [0x2A, 0x2F] + rest) == Some(rest)
    decreases |body|
  {
    var text := body + [0x2A, 0x2F] + rest;
    if body == [] {
      assert text[1..][0] == 0x2F && text[2..] == rest;
    } else {
      assert 0 !in body[1..] && text[1..] == body[1..] + [0x2A, 0x2F] + rest;
      assert body[0] == 0x2A ==> text[1..][0] != 0x2F;
      BlockIsSkipped(body[1..], rest);
    }
  }

  lemma {:induction false} LineIsSkipped(body: Text, rest: Text)
    requires 0 !in body && 0x0A !in body
    ensures LineEnd(body + ([0x0A] + rest)) == rest
    ensures Peek(rest) == 0 ==> LineEnd(body + rest) == rest
    decreases |body|
  {
    if body == [] {
      assert body + ([0x0A] + rest) == [0x0A] + rest && body + rest == rest;
      assert ([0x0A] + rest)[1..] == rest;
    } else {
      assert (body + ([0x0A] + rest))[1..] == body[1..] + ([0x0A] + rest);
      assert (body + rest)[1..] == body[1..] + rest;
      LineIsSkipped(body[1..], rest);
    }
  }

  lemma BlankIsSkipped(flags: Flags, c: Byte, rest: Text)
    requires ValidPiece(flags, Blank(c))
    ensures Skip(flags, [c] + rest) == Skip(flags, rest)
  {
    assert ([c] + rest)[1..] == rest;
  }

  lemma CommentIsSkipped(flags: Flags, c: Byte, body: Text, text: Text)
    requires flags.comments && text == [0x2F, c] + body
    ensures c == 0x2A && BlockEnd(body).Some? ==> Skip(flags, text) == Skip(flags, BlockEnd(body).value)
    ensures c == 0x2F ==> Skip(flags, text) == Skip(flags, LineEnd(body))
  {
    assert text[1..][0] == c && text[2..] == body;
  }

  lemma PieceIsSkipped(flags: Flags, p: Piece, rest: Text)
    requires ValidPiece(flags, p)
    ensures Skip(flags, PieceText(p) + rest) == Skip(flags, rest)
  {
    match p
    case Blank(c) =>
      BlankIsSkipped(flags, c, rest);
    case Block(body) =>
      Regrouped([0x2F, 0x2A], body + [0x2A, 0x2F], rest);
      BlockIsSkipped(body, rest);
      CommentIsSkipped(flags, 0x2A, body + [0x2A, 0x2F] + rest, PieceText(p) + rest);
    case Line(body) =>
      Regrouped([0x2F, 0x2F], body + [0x0A], rest);
      Regrouped(body, [0x0A], rest);
      LineIsSkipped(body, rest);
      CommentIsSkipped(flags, 0x2F, body + ([0x0A] + rest), PieceText(p) + rest);
  }

  lemma {:induction false} GapIsSkipped(flags: Flags, gap: Gap, rest: Text)
    requires ValidGap(flags, gap)
    ensures Skip(flags, GapText(gap) + rest) == Skip(flags, rest)
    decreases |gap|
  {
    if gap == [] {
      assert [] + rest == rest;
    } else {
      Regrouped(PieceText(gap[0]), GapText(gap[1..]), rest);
      PieceIsSkipped(flags, gap[0], GapText(gap[1..]) + rest);
      GapIsSkipped(flags, gap[1..], rest);
    }
  }

  lemma SkipsGap(flags: Flags, gap: Gap, rest: Text, events: seq<Event>)
    requires ValidGap(flags, gap) && Stops(rest)
    ensures Skipped(flags, Stream(GapText(gap) + rest, events)) == Ok(Stream(rest, events))
  {
    GapIsSkipped(flags, gap, rest);
  }

  /** At the end of the text, a comment need not end its line. */
  lemma SkipsLast(flags: Flags, gap: Gap, last: Option<Text>, rest: Text, events: seq<Event>)
    requires ValidGap(flags, gap) && ValidLast(flags, last) && Peek(rest) == 0
    ensures Skipped(flags, Stream(GapText(gap) + (LastText(last) + rest), events)) == Ok(Stream(rest, events))
  {
    GapIsSkipped(flags, gap, LastText(last) + rest);
    match last
    case None =>
      assert [] + rest == rest;
    case Some(body) =>
      var text := LastText(last) + rest;
      assert text[1..][0] == 0x2F && text[2..] == body + rest;
      LineIsSkipped(body, rest);
  }

  /// ## What is skipped is a gap

  lemma {:induction false} GapJoins(flags: Flags, a: Gap, b: Gap)
    requires ValidGap(flags, a) && ValidGap(flags, b)
    ensures ValidGap(flags, a + b) && GapText(a + b) == GapText(a) + GapText(b)
    decreases |a|
  {
    if a == [] {
      assert a + b == b;
    } else {
      assert (a + b)[1..] == a[1..] + b;
      GapJoins(flags, a[1..], b);
    }
  }

  lemma {:induction false} BlanksAreGap(flags: Flags, text: Text) returns (gap: Gap)
    ensures ValidGap(flags, gap) && text == GapText(gap) + SkipWhitespace(text)
    decreases |text|
  {
    gap := [];
    if text != [] && IsSpace(text[0]) {
      var more := BlanksAreGap(flags, text[1..]);
      gap := [Blank(text[0])] + more;
      assert gap[1..] == more;
      assert text == [text[0]] + text[1..];
    }
  }

  lemma {:induction false} BlockOf(text: Text) returns (body: Text)
    requires BlockEnd(text).Some?
    ensures ValidPiece(Flags(true, false, false), Block(body)) && text == body + [0x2A, 0x2F] + BlockEnd(text).value
    ensures body != [] ==> body[0] == text[0]
    decreases |text|
  {
    body := [];
    if text[0] == 0x2A && Peek(text[1..]) == 0x2F {
      assert text == [0x2A, 0x2F] + text[2..];
    } else {
      var more := BlockOf(text[1..]);
      body := [text[0]] + more;
      assert text == [text[0]] + text[1..];
      forall i | 0 <= i < |body| - 1
        ensures body[i] != 0x2A || body[i + 1] != 0x2F
      {
        if i > 0 {
          assert body[i] == more[i - 1] && body[i + 1] == more[i];
        } else {
          assert body[1] == more[0] == text[1];
        }
      }
    }
  }

  /** What `LineEnd` passes: up to the end of the line, or of the text. */
  lemma {:induction false} LineOf(text: Text) returns (body: Text, ended: bool)
    ensures 0 !in body && 0x0A !in body
    ensures text == body + ((if ended then [0x0A] else []) + LineEnd(text))
    ensures !ended ==> Peek(LineEnd(text)) == 0
    decreases |text|
  {
    body, ended := [], false;
    if Peek(text) == 0 {
    } else if text[0] == 0x0A {
      ended := true;
      assert text == [0x0A] + text[1..];
    } else {
      body, ended := LineOf(text[1..]);
      assert text == [text[0]] + text[1..];
      body := [text[0]] + body;
    }
  }

  lemma GapThen(flags: Flags, gap: Gap, piece: Piece, more: Gap, rest: Text)
    requires ValidGap(flags, gap) && ValidPiece(flags, piece) && ValidGap(flags, more)
    ensures ValidGap(flags, gap + [piece] + more)
    ensures GapText(gap) + (PieceText(piece) + (GapText(more) + rest)) == GapText(gap + [piece] + more) + rest
  {
    OnePiece(piece);
    GapJoins(flags, gap, [piece]);
    GapJoins(flags, gap + [piece], more);
    Regrouped(GapText(gap), PieceText(piece), GapText(more) + rest);
    Regrouped(GapText(gap + [piece]), GapText(more), rest);
  }

  lemma OnePiece(piece: Piece)
    ensures GapText([piece]) == PieceText(piece)
  {
  }

  lemma BlockThen(flags: Flags, gap: Gap, body: Text, more: Gap, rest: Text)
    requires ValidGap(flags, gap) && ValidPiece(flags, Block(body)) && ValidGap(flags, more)
    ensures ValidGap(flags, gap + [Block(body)] + more)
    ensures GapText(gap) + ([0x2F, 0x2A] + (body + [0x2A, 0x2F] + (GapText(more) + rest)))
         == GapText(gap + [Block(body)] + more) + rest
  {
    GapThen(flags, gap, Block(body), more, rest);
    Regrouped([0x2F, 0x2A], body + [0x2A, 0x2F], GapText(more) + rest);
  }

  lemma LineThen(flags: Flags, gap: Gap, body: Text, more: Gap, rest: Text)
    requires ValidGap(flags, gap) && ValidPiece(flags, Line(body)) && ValidGap(flags, more)
    ensures ValidGap(flags, gap + [Line(body)] + more)
    ensures GapText(gap) + ([0x2F, 0x2F] + (body + ([0x0A] + (GapText(more) + rest))))
         == GapText(gap + [Line(body)] + more) + rest
  {
    GapThen(flags, gap, Line(body), more, rest);
    Regrouped(body, [0x0A], GapText(more) + rest);
    Regrouped([0x2F, 0x2F], body + [0x0A], GapText(more) + rest);
  }

  lemma {:induction false} SkipIsGap(flags: Flags, text: Text) returns (gap: Gap, last: Option<Text>)
    requires Skip(flags, text).Some?
    ensures ValidGap(flags, gap) && ValidLast(flags, last)
    ensures text == GapText(gap) + (LastText(last) + Skip(flags, text).value)
    ensures last.Some? ==> Peek(Skip(flags, text).value) == 0
    decreases |text|, 1
  {
    gap := BlanksAreGap(flags, text);
    last := None;
    var at := SkipWhitespace(text);
    if flags.comments && Peek(at) == 0x2F {
      if Peek(at[1..]) == 0x2A {
        assert at == [0x2F, 0x2A] + at[2..];
        gap, last := BlockIsGap(flags, gap, at[2..]);
      } else {
        assert at == [0x2F, 0x2F] + at[2..];
        gap, last := LineIsGap(flags, gap, at[2..]);
      }
    }
  }

  /** From behind the beginning of a block comment on. */
  lemma {:induction false} BlockIsGap(flags: Flags, before: Gap, text: Text) returns (gap: Gap, last: Option<Text>)
    requires ValidGap(flags, before) && flags.comments && BlockEnd(text).Some?
    requires Skip(flags, BlockEnd(text).value).Some?
    ensures var rest := Skip(flags, BlockEnd(text).value).value;
            && ValidGap(flags, gap) && ValidLast(flags, last) && (last.Some? ==> Peek(rest) == 0)
            && GapText(before) + ([0x2F, 0x2A] + text) == GapText(gap) + (LastText(last) + rest)
    decreases |text|, 0
  {
    var body := BlockOf(text);
    gap, last := SkipIsGap(flags, BlockEnd(text).value);
    var rest := Skip(flags, BlockEnd(text).value).value;
    BlockThen(flags, before, body, gap, LastText(last) + rest);
    gap := before + [Block(body)] + gap;
  }

  /** From behind the beginning of a line comment on. */
  lemma {:induction false} LineIsGap(flags: Flags, before: Gap, text: Text) returns (gap: Gap, last: Option<Text>)
    requires ValidGap(flags, before) && flags.comments && Skip(flags, LineEnd(text)).Some?
    ensures var rest := Skip(flags, LineEnd(text)).value;
            && ValidGap(flags, gap) && ValidLast(flags, last) && (last.Some? ==> Peek(rest) == 0)
            && GapText(before) + ([0x2F, 0x2F] + text) == GapText(gap) + (LastText(last) + rest)
    decreases |text|, 0, 0
  {
    var body, ended := LineOf(text);
    if ended {
      gap, last := SkipIsGap(flags, LineEnd(text));
      var rest := Skip(flags, LineEnd(text)).value;
      LineThen(flags, before, body, gap, LastText(last) + rest);
      gap := before + [Line(body)] + gap;
    } else {
      gap, last := before, Some(body);
      assert [] + LineEnd(text) == LineEnd(text) == Skip(flags, LineEnd(text)).value;
      Regrouped([0x2F, 0x2F], body, LineEnd(text));
    }
  }
}
