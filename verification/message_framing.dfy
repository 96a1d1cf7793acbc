/** The "(...)" framing of the stream from the master: how the client cuts payloads out of whatever
  chunks the socket hands over, keeping an unfinished message at the front of its buffer. */
module MessageFraming {

  function Last(s: string): char
    requires s != []
  {
    s[|s| - 1]
  }

  function Front(s: string): string
    requires s != []
  {
    s[..|s| - 1]
  }

  /// ## What the scan of one buffer finds

  /** Where the text of the message being read begins: after the latest '(', or at 0. */
  function Start(s: string): (k: nat)
    ensures k <= |s|
  {
    if s == [] then 0 else if Last(s) == '(' then |s| else Start(Front(s))
  }

  /** The latest '(' has no ')' after it. */
  predicate Open(s: string) {
    s != [] && (Last(s) == '(' || (Last(s) != ')' && Open(Front(s))))
  }

  /** One payload for each ')': the text since `Start`. */
  function Delivered(s: string): seq<string> {
    if s == [] then []
    else if Last(s) == ')' then Delivered(Front(s)) + [Front(s)[Start(Front(s))..]]
    else Delivered(Front(s))
  }

  /** What is carried over to the next chunk. */
  function Kept(s: string): string {
    if Open(s) then ['('] + s[Start(s)..] else []
  }

  /// ## A stream received in chunks

  datatype Reassembly = Reassembly(kept: string, delivered: seq<string>)

  function Received(chunks: seq<string>): Reassembly {
    if chunks == [] then Reassembly([], [])
    else
      var before := Received(chunks[..|chunks| - 1]);
      var buffer := before.kept + chunks[|chunks| - 1];
      Reassembly(Kept(buffer), before.delivered + Delivered(buffer))
  }

  function Joined(chunks: seq<string>): string {
    if chunks == [] then [] else Joined(chunks[..|chunks| - 1]) + chunks[|chunks| - 1]
  }

  /** Every ')' after the first character closes a message that is open. */
  predicate Bracketed(s: string) {
    s == [] || (Bracketed(Front(s)) && (Last(s) == ')' && |s| > 1 ==> Open(Front(s))))
  }

  /** The text of an open message holds no bracket. */
  lemma {:induction false} OpenTextIsPlain(s: string)
    ensures Open(s) ==> '(' !in s[Start(s)..] && ')' !in s[Start(s)..]
  {
    if Open(s) && Last(s) != '(' {
      OpenTextIsPlain(Front(s));
      assert s[Start(s)..] == Front(s)[Start(s)..] + [Last(s)];
    }
  }

  lemma {:induction false} PlainFinds(s: string)
    requires '(' !in s && ')' !in s
    ensures Start(['('] + s) == 1 && Open(['('] + s) && Delivered(['('] + s) == []
  {
    var t := ['('] + s;
    if s == [] {
      assert Front(t) == [];
    } else {
      assert Last(t) == Last(s) && Last(s) in s;
      PlainFinds(Front(s));
      assert Front(t) == ['('] + Front(s);
    }
  }

  lemma KeptAlone(s: string)
    ensures Kept(Kept(s)) == Kept(s) && Open(Kept(s)) == Open(s) && Delivered(Kept(s)) == []
  {
    OpenTextIsPlain(s);
    if Open(s) {
      PlainFinds(s[Start(s)..]);
    }
  }

  lemma Attached(p: string, c: string)
    requires c != []
    ensures Last(p + c) == Last(c) && Front(p + c) == p + Front(c)
  {
  }

  lemma KeptStep(a: string, x: char)
    ensures Open(a + [x]) == (x == '(' || (x != ')' && Open(a)))
    ensures Kept(a + [x]) == if x == '(' then ['('] else if x != ')' && Open(a) then Kept(a) + [x] else []
  {
    assert Front(a + [x]) == a;
    assert x != '(' ==> (a + [x])[Start(a)..] == a[Start(a)..] + [x];
    assert ['('] + a[Start(a)..] + [x] == ['('] + (a[Start(a)..] + [x]);
  }

  lemma SameText(a: string, b: string)
    requires Kept(a) == Kept(b) && Open(a) && Open(b)
    ensures a[Start(a)..] == b[Start(b)..]
  {
    assert Kept(a)[1..] == a[Start(a)..] && Kept(b)[1..] == b[Start(b)..];
  }

  /** Appending a character keeps what `Kept` says of two buffers the same. */
  lemma OneMore(a: string, b: string, x: char)
    requires Kept(a) == Kept(b) && Open(a) == Open(b)
    requires x == ')' ==> Open(a) || (a == [] && b == [])
    ensures Kept(a + [x]) == Kept(b + [x]) && Open(a + [x]) == Open(b + [x])
    ensures x == ')' ==> a[Start(a)..] == b[Start(b)..]
  {
    KeptStep(a, x);
    KeptStep(b, x);
    if Open(a) {
      SameText(a, b);
    }
  }

  lemma DeliveredStep(a: string, b: string, d: seq<string>, x: char)
    requires Delivered(a) == d + Delivered(b) && (x == ')' ==> a[Start(a)..] == b[Start(b)..])
    ensures Delivered(a + [x]) == d + Delivered(b + [x])
  {
    assert Front(a + [x]) == a && Front(b + [x]) == b;
  }

  lemma BracketedLast(a: string, x: char)
    requires Bracketed(a + [x])
    ensures Bracketed(a) && (x == ')' ==> Open(a) || a == [])
  {
    assert Front(a + [x]) == a;
  }

  lemma LastApart(p: string, c: string)
    requires c != []
    ensures p + c == p + Front(c) + [Last(c)]
  {
  }

  /** Cutting a bracketed stream anywhere delivers the same payloads and carries over the same text. */
  lemma {:induction false} CutOnce(p: string, c: string)
    requires Bracketed(p + c)
    ensures Delivered(p + c) == Delivered(p) + Delivered(Kept(p) + c)
    ensures Open(p + c) == Open(Kept(p) + c) && Kept(p + c) == Kept(Kept(p) + c)
  {
    if c == [] {
      KeptAlone(p);
      assert p + c == p && Kept(p) + c == Kept(p);
    } else {
      var a, b, x := p + Front(c), Kept(p) + Front(c), Last(c);
      LastApart(p, c);
      LastApart(Kept(p), c);
      BracketedLast(a, x);
      CutOnce(p, Front(c));
      OneMore(a, b, x);
      DeliveredStep(a, b, Delivered(p), x);
    }
  }

  lemma {:induction false} BracketedPrefix(p: string, c: string)
    requires Bracketed(p + c)
    ensures Bracketed(p)
  {
    if c == [] {
      assert p + c == p;
    } else {
      Attached(p, c);
      BracketedPrefix(p, Front(c));
    }
  }

  /** Chunked reception of a bracketed stream is unchunked reception. */
  lemma {:induction false} ReceivedWhole(chunks: seq<string>)
    requires Bracketed(Joined(chunks))
    ensures Received(chunks) == Reassembly(Kept(Joined(chunks)), Delivered(Joined(chunks)))
  {
    if chunks != [] {
      var before, chunk := chunks[..|chunks| - 1], chunks[|chunks| - 1];
      BracketedPrefix(Joined(before), chunk);
      ReceivedWhole(before);
      CutOnce(Joined(before), chunk);
    }
  }

  /// ## Exactly the bracketed streams can be cut anywhere

  lemma {:induction false} DeliveredGrows(p: string, c: string)
    ensures Delivered(p) <= Delivered(p + c)
  {
    if c == [] {
      assert p + c == p;
    } else {
      Attached(p, c);
      DeliveredGrows(p, Front(c));
    }
  }

  /** The first ')' that closes nothing, and the text before it. */
  lemma {:induction false} FirstStray(s: string) returns (before: string, rest: string)
    requires !Bracketed(s)
    ensures before + [')'] + rest == s && before != [] && Bracketed(before) && !Open(before)
  {
    if Bracketed(Front(s)) {
      before, rest := Front(s), [];
    } else {
      before, rest := FirstStray(Front(s));
      rest := rest + [Last(s)];
      assert s == Front(s) + [Last(s)];
    }
  }

  lemma ClosedTextIsNotEmpty(s: string)
    requires s != [] && !Open(s)
    ensures s[Start(s)..] != []
  {
  }

  lemma CutAtStray(before: string, rest: string)
    requires before != [] && Bracketed(before) && !Open(before)
    ensures Received([before, [')'] + rest]).delivered != Delivered(before + [')'] + rest)
  {
    var cut := [before, [')'] + rest];
    assert cut[..1] == [before] && [before][..0] == [] && [] + before == before;
    assert Received([before]) == Reassembly([], Delivered(before));
    assert [] + cut[1] == cut[1];
    assert Received(cut).delivered == Delivered(before) + Delivered(cut[1]);
    DeliveredGrows([')'], rest);
    assert Front([')']) == [] && Delivered([')']) == [[]];
    DeliveredGrows(before + [')'], rest);
    Attached(before, [')']);
    assert before + [] == before;
    assert Delivered(before + [')']) == Delivered(before) + [before[Start(before)..]];
    ClosedTextIsNotEmpty(before);
    var n := |Delivered(before)|;
    assert Received(cut).delivered[n] == Delivered(cut[1])[0] == [];
    assert Delivered(before + [')'] + rest)[n] == before[Start(before)..];
  }

  /** A stream is delivered the same however it is cut if and only if every ')' after its first
      character closes an open message. */
  lemma {:induction false} CutsDoNotMatterIff(s: string)
    ensures Bracketed(s)
        <==> forall chunks: seq<string> :: Joined(chunks) == s ==> Received(chunks).delivered == Delivered(s)
  {
    forall chunks: seq<string> | Bracketed(s) && Joined(chunks) == s
      ensures Received(chunks).delivered == Delivered(s)
    {
      ReceivedWhole(chunks);
    }
    if !Bracketed(s) {
      var before, rest := FirstStray(s);
      CutAtStray(before, rest);
      var cut := [before, [')'] + rest];
      assert cut[..1] == [before] && [before][..0] == [];
      assert Joined([before]) == before;
      assert Joined(cut) == s;
    }
  }

  /// ## Streams of whole messages

  function Framed(payloads: seq<string>): string {
    if payloads == [] then []
    else Framed(payloads[..|payloads| - 1]) + (['('] + payloads[|payloads| - 1] + [')'])
  }

  predicate Plain(payloads: seq<string>) {
    forall k :: 0 <= k < |payloads| ==> '(' !in payloads[k] && ')' !in payloads[k]
  }

  /** The stream `p` so far has delivered the first payloads and holds the rest unfinished. */
  predicate Reassembled(p: string, payloads: seq<string>) {
    Bracketed(p) && Delivered(p) <= payloads && p == Framed(Delivered(p)) + Kept(p)
  }

  lemma OpenContinues(t: string, x: char)
    requires Open(t) && Bracketed(t) && x != '(' && x != ')'
    ensures Open(t + [x]) && Bracketed(t + [x]) && Delivered(t + [x]) == Delivered(t)
    ensures (t + [x])[Start(t + [x])..] == t[Start(t)..] + [x]
  {
    assert Front(t + [x]) == t;
  }

  /** The text of a message delivers nothing and is kept. */
  lemma {:induction false} TextContinues(t: string, text: string)
    requires Open(t) && Bracketed(t) && '(' !in text && ')' !in text
    ensures Open(t + text) && Bracketed(t + text) && Delivered(t + text) == Delivered(t)
    ensures (t + text)[Start(t + text)..] == t[Start(t)..] + text
    decreases |text|
  {
    if text == [] {
      assert t + text == t;
    } else {
      var x := text[0];
      assert x in text && (forall c :: c in text[1..] ==> c in text);
      OpenContinues(t, x);
      TextContinues(t + [x], text[1..]);
      Reassociated(t, t[Start(t)..], x, text);
    }
  }

  lemma Reassociated(t: string, u: string, x: char, text: string)
    requires text != [] && x == text[0]
    ensures t + [x] + text[1..] == t + text && u + [x] + text[1..] == u + text
  {
    assert text == [x] + text[1..];
  }

  lemma Opened(p: string)
    requires Bracketed(p)
    ensures Open(p + ['(']) && Bracketed(p + ['(']) && Delivered(p + ['(']) == Delivered(p)
    ensures (p + ['('])[Start(p + ['('])..] == []
  {
    assert Front(p + ['(']) == p;
  }

  lemma Parenthesised(p: string, text: string)
    ensures p + ['('] + text == p + (['('] + text) && [] + text == text
  {
  }

  /** Opening a message delivers nothing more and keeps its text. */
  lemma OpenAppended(p: string, text: string)
    requires Bracketed(p) && '(' !in text && ')' !in text
    ensures Bracketed(p + (['('] + text)) && Delivered(p + (['('] + text)) == Delivered(p)
    ensures Open(p + (['('] + text)) && (p + (['('] + text))[Start(p + (['('] + text))..] == text
  {
    Opened(p);
    TextContinues(p + ['('], text);
    Parenthesised(p, text);
  }

  lemma Closed(p: string, payload: string)
    requires Bracketed(p) && '(' !in payload && ')' !in payload
    ensures Bracketed(p + (['('] + payload + [')'])) && !Open(p + (['('] + payload + [')']))
    ensures Delivered(p + (['('] + payload + [')'])) == Delivered(p) + [payload]
  {
    OpenAppended(p, payload);
    var open := p + (['('] + payload);
    assert p + (['('] + payload + [')']) == open + [')'];
    assert Front(open + [')']) == open && |open| > 0;
  }

  lemma {:induction false} AllDelivered(payloads: seq<string>)
    requires Plain(payloads)
    ensures Bracketed(Framed(payloads)) && !Open(Framed(payloads)) && Delivered(Framed(payloads)) == payloads
  {
    if payloads != [] {
      var front, m := payloads[..|payloads| - 1], payloads[|payloads| - 1];
      AllDelivered(front);
      Closed(Framed(front), m);
      assert front + [m] == payloads;
    }
  }

  lemma {:induction false} PrefixReassembled(p: string, payloads: seq<string>)
    requires Plain(payloads) && p <= Framed(payloads)
    ensures Reassembled(p, payloads)
  {
    AllDelivered(payloads);
    if p == Framed(payloads) {
    } else {
      var front, m := payloads[..|payloads| - 1], payloads[|payloads| - 1];
      var f := Framed(front);
      if |p| <= |f| {
        assert p == Framed(payloads)[..|p|] == f[..|p|];
        PrefixReassembled(p, front);
      } else {
        AllDelivered(front);
        var text := m[..|p| - |f| - 1];
        assert p == Framed(payloads)[..|p|] == f + (['('] + text);
        OpenAppended(f, text);
      }
    }
  }

  /** However the stream of whole messages is cut, and however much of it has arrived, the payloads
      delivered are the first ones sent, in order, and they and the text kept are all that arrived. */
  lemma MessagesArrive(payloads: seq<string>, chunks: seq<string>)
    requires Plain(payloads) && Joined(chunks) <= Framed(payloads)
    ensures Received(chunks).delivered <= payloads
    ensures Framed(Received(chunks).delivered) + Received(chunks).kept == Joined(chunks)
    ensures Joined(chunks) == Framed(payloads) ==> Received(chunks) == Reassembly([], payloads)
  {
    PrefixReassembled(Joined(chunks), payloads);
    ReceivedWhole(chunks);
    PrefixReassembled(Framed(payloads), payloads);
    AllDelivered(payloads);
  }

  /// ## How much room the stream needs

  /** No payload is longer than `longest`. */
  predicate NotLonger(payloads: seq<string>, longest: nat) {
    forall k :: 0 <= k < |payloads| ==> |payloads[k]| <= longest
  }

  /** What is kept is never longer than the longest payload behind its parenthesis. */
  lemma {:induction false} KeptFits(p: string, payloads: seq<string>, longest: nat)
    requires Plain(payloads) && NotLonger(payloads, longest) && p <= Framed(payloads)
    ensures |Kept(p)| <= longest + 1
  {
    AllDelivered(payloads);
    if p == Framed(payloads) {
    } else {
      var front, m := payloads[..|payloads| - 1], payloads[|payloads| - 1];
      var f := Framed(front);
      if |p| <= |f| {
        assert p == Framed(payloads)[..|p|] == f[..|p|];
        KeptFits(p, front, longest);
      } else {
        AllDelivered(front);
        var text := m[..|p| - |f| - 1];
        assert p == Framed(payloads)[..|p|] == f + (['('] + text);
        OpenAppended(f, text);
      }
    }
  }

  lemma {:induction false} JoinedPrefix(chunks: seq<string>, k: nat)
    requires k <= |chunks|
    ensures Joined(chunks[..k]) <= Joined(chunks)
  {
    if k == |chunks| {
      assert chunks[..k] == chunks;
    } else {
      var front := chunks[..|chunks| - 1];
      JoinedPrefix(front, k);
      assert front[..k] == chunks[..k];
    }
  }

  const CAPACITY := 4096

  /** The chunk after the first `k` fits in the buffer behind what is kept then, with the final zero. */
  predicate Fits(chunks: seq<string>, k: nat)
    requires k < |chunks|
  {
    |Received(chunks[..k]).kept| + |chunks[k]| < CAPACITY
  }

  lemma ChunksFit(payloads: seq<string>, chunks: seq<string>, longest: nat, largest: nat, k: nat)
    requires Plain(payloads) && NotLonger(payloads, longest) && NotLonger(chunks, largest)
    requires Joined(chunks) <= Framed(payloads) && k < |chunks|
    ensures |Received(chunks[..k]).kept| + |chunks[k]| <= longest + 1 + largest
  {
    var p := Joined(chunks[..k]);
    JoinedPrefix(chunks, k);
    assert p <= Framed(payloads);
    PrefixReassembled(p, payloads);
    ReceivedWhole(chunks[..k]);
    KeptFits(p, payloads, longest);
  }

  /** Every way of sending payloads of at most `longest` characters in chunks of at most `largest` fits. */
  ghost predicate AlwaysFits(longest: nat, largest: nat) {
    forall payloads: seq<string>, chunks: seq<string>, k: nat ::
      Sendable(payloads, chunks, longest, largest) && k < |chunks| ==> Fits(chunks, k)
  }

  ghost predicate Sendable(payloads: seq<string>, chunks: seq<string>, longest: nat, largest: nat) {
    && Plain(payloads) && NotLonger(payloads, longest) && NotLonger(chunks, largest)
    && Joined(chunks) <= Framed(payloads)
  }

  function Singles(s: string): seq<string> {
    seq(|s|, i requires 0 <= i < |s| => [s[i]])
  }

  lemma {:induction false} SinglesJoined(s: string)
    ensures Joined(Singles(s)) == s
  {
    if s != [] {
      SinglesJoined(Front(s));
      assert Singles(s)[..|s| - 1] == Singles(Front(s));
    }
  }

  function EmptyPayloads(n: nat): seq<string> {
    seq(n, i => [])
  }

  /** A long payload and enough behind it. */
  lemma {:induction false} LongStream(text: string, n: nat)
    requires '(' !in text && ')' !in text
    ensures Plain([text] + EmptyPayloads(n)) && ['('] + text <= Framed([text] + EmptyPayloads(n))
    ensures |Framed([text] + EmptyPayloads(n))| >= |text| + 1 + n
  {
    var payloads := [text] + EmptyPayloads(n);
    if n == 0 {
      assert payloads == [text] && payloads[..0] == [] && Framed(payloads[..0]) == [];
    } else {
      LongStream(text, n - 1);
      assert payloads[..|payloads| - 1] == [text] + EmptyPayloads(n - 1);
    }
  }

  /** The text of the open message in single characters. */
  lemma SinglesKept(text: string)
    requires '(' !in text && ')' !in text
    ensures Received(Singles(['('] + text)).kept == ['('] + text
  {
    var open := ['('] + text;
    SinglesJoined(open);
    OpenAppended([], text);
    assert [] + open == open;
    ReceivedWhole(Singles(open));
  }

  lemma JoinedMore(chunks: seq<string>, chunk: string)
    ensures Joined(chunks + [chunk]) == Joined(chunks) + chunk
  {
    assert (chunks + [chunk])[..|chunks|] == chunks;
  }

  lemma ChunkBehind(text: string, n: nat) returns (chunks: seq<string>)
    requires '(' !in text && ')' !in text && n > 0
    ensures Sendable([text] + EmptyPayloads(n), chunks, |text|, n)
    ensures |chunks| == |text| + 2 && |Received(chunks[..|text| + 1]).kept| == |text| + 1 && |chunks[|text| + 1]| == n
  {
    LongStream(text, n);
    var stream, open := Framed([text] + EmptyPayloads(n)), ['('] + text;
    var chunk := stream[|open|..|open| + n];
    chunks := Singles(open) + [chunk];
    assert chunks[..|open|] == Singles(open);
    SinglesKept(text);
    SinglesJoined(open);
    JoinedMore(Singles(open), chunk);
    assert open + chunk == stream[..|open| + n];
  }

  /** A buffer of `CAPACITY` is never overrun if and only if it has room for a parenthesis, the longest
      payload, the largest chunk and the final zero. */
  lemma AlwaysFitsIff(longest: nat, largest: nat)
    requires largest > 0
    ensures AlwaysFits(longest, largest) <==> longest + 1 + largest < CAPACITY
  {
    if longest + 1 + largest < CAPACITY {
      forall payloads: seq<string>, chunks: seq<string>, k: nat |
        Sendable(payloads, chunks, longest, largest) && k < |chunks|
        ensures Fits(chunks, k)
      {
        ChunksFit(payloads, chunks, longest, largest, k);
      }
    } else {
      var text := seq(longest, i => 'x');
      var chunks := ChunkBehind(text, largest);
      assert !Fits(chunks, longest + 1);
    }
  }

  /// ## The client's receive buffer

  class Receiver {
    const recvbuf: array<char>
    var recvbuflen: nat
    var tasks: seq<string>   // what was handed to the send manager

    ghost predicate Valid()
      reads this
    {
      recvbuf.Length == CAPACITY && recvbuflen < CAPACITY
    }

    ghost function Contents(): string
      requires Valid()
      reads this, recvbuf
    {
      recvbuf[..recvbuflen]
    }

    constructor ()
      ensures Valid() && fresh(recvbuf) && Contents() == [] && tasks == []
    {
      recvbuf := new char[CAPACITY];
      recvbuflen, tasks := 0, [];
    }

    /** Appends what the socket received, and ends it with a zero. A write behind the buffer, which is not
        tested for, is an outcome of its own. */
    method GetRecvBuf(received: string) returns (overrun: bool)
      requires Valid()
      modifies `recvbuflen, recvbuf
      ensures overrun == (old(recvbuflen) + |received| >= CAPACITY)
      ensures !overrun ==> Valid() && Contents() == old(Contents()) + received
      ensures overrun ==> recvbuf[..] == (old(Contents()) + received)[..CAPACITY]
    {
      var i := 0;
      while i < |received|
        invariant 0 <= i <= |received| && recvbuflen == old(recvbuflen) + i <= CAPACITY
        invariant recvbuf[..recvbuflen] == old(recvbuf[..recvbuflen]) + received[..i]
      {
        if recvbuflen == CAPACITY {
          assert (old(Contents()) + received)[..CAPACITY] == old(Contents()) + received[..i];
          return true;
        }
        recvbuf[recvbuflen] := received[i];
        recvbuflen := recvbuflen + 1;
        i := i + 1;
      }
      assert received[..i] == received;
      if recvbuflen == CAPACITY { return true; }
      recvbuf[recvbuflen] := '\0';
      overrun := false;
    }

    /** Hands on every message that ends in the buffer. */
    method Scan() returns (insstart: nat, insend: nat)
      requires Valid()
      modifies `tasks
      ensures tasks == old(tasks) + Delivered(Contents())
      ensures insstart == Start(Contents()) && (insend < insstart <==> Open(Contents()))
    {
      ghost var buffer := Contents();
      insstart, insend := 0, 0;
      var i := 0;
      while i < recvbuflen
        invariant 0 <= i <= recvbuflen && insend <= i
        invariant insstart == Start(buffer[..i]) && (insend < insstart <==> Open(buffer[..i]))
        invariant tasks == old(tasks) + Delivered(buffer[..i])
      {
        assert buffer[..i + 1] == buffer[..i] + [recvbuf[i]];
        assert Front(buffer[..i + 1]) == buffer[..i];
        if recvbuf[i] == '(' {
          insstart := i + 1;
        }
        if recvbuf[i] == ')' {
          insend := i;
          assert recvbuf[insstart..insend] == buffer[..i][insstart..];
          tasks := tasks + [recvbuf[insstart..insend]];
        }
        i := i + 1;
      }
      assert buffer[..i] == buffer;
    }

    /** Moves the open message from `insstart` to the front of the buffer, over itself. */
    method Shift(insstart: nat)
      requires Valid() && 0 < insstart <= recvbuflen
      modifies `recvbuflen, recvbuf
      ensures Valid() && Contents() == ['('] + old(Contents()[insstart..])
    {
      ghost var buffer := Contents();
      var i, from := 1, insstart;
      recvbuf[0] := '(';
      while from < recvbuflen
        invariant recvbuflen == old(recvbuflen) && insstart <= from <= recvbuflen && i == 1 + from - insstart
        invariant recvbuf[from..recvbuflen] == buffer[from..]
        invariant recvbuf[..i] == ['('] + buffer[insstart..from]
      {
        ghost var read := recvbuf[from];
        assert read == recvbuf[from..recvbuflen][0] == buffer[from];
        assert recvbuf[from + 1..recvbuflen] == recvbuf[from..recvbuflen][1..];
        recvbuf[i] := recvbuf[from];
        assert buffer[insstart..from + 1] == buffer[insstart..from] + [buffer[from]];
        i, from := i + 1, from + 1;
      }
      assert buffer[insstart..from] == buffer[insstart..];
      recvbuf[i] := '\0';
      recvbuflen := i;
    }

    /** One readable event: takes the received chunk, hands on the messages that it completes and
        keeps the one that it leaves open. */
    method Receive(received: string) returns (overrun: bool)
      requires Valid()
      modifies this, recvbuf
      ensures overrun == (old(recvbuflen) + |received| >= CAPACITY)
      ensures !overrun ==> Valid() && Contents() == Kept(old(Contents()) + received)
      ensures tasks == old(tasks) + if overrun then [] else Delivered(old(Contents()) + received)
    {
      overrun := GetRecvBuf(received);
      if overrun {
        assert tasks + [] == tasks;
        return;
      }
      var insstart, insend := Scan();
      if insend < insstart {
        Shift(insstart);
      } else {
        recvbuf[0] := '\0';
        recvbuflen := 0;
      }
    }

    /** Receives a run of chunks, up to the first that overruns the buffer. */
    method ReceiveAll(chunks: seq<string>) returns (i: nat)
      requires Valid() && Contents() == [] && tasks == []
      modifies this, recvbuf
      ensures i <= |chunks| && (forall k :: 0 <= k < i ==> Fits(chunks, k)) && (i < |chunks| ==> !Fits(chunks, i))
      ensures tasks == Received(chunks[..i]).delivered
      ensures i == |chunks| ==> Valid() && Reassembly(Contents(), tasks) == Received(chunks)
    {
      i := 0;
      while i < |chunks|
        invariant 0 <= i <= |chunks| && Valid() && Reassembly(Contents(), tasks) == Received(chunks[..i])
        invariant forall k :: 0 <= k < i ==> Fits(chunks, k)
      {
        assert chunks[..i + 1][..i] == chunks[..i];
        var overrun := Receive(chunks[i]);
        if overrun { return; }
        i := i + 1;
      }
      assert chunks[..i] == chunks;
    }

    /** A stream of messages with payloads of at most `longest` characters, received in chunks of at most
        `largest`: the tasks are the first payloads, and all of them when the whole stream has come. */
    method ReceiveMessages(chunks: seq<string>, ghost payloads: seq<string>, ghost longest: nat, ghost largest: nat)
      requires Valid() && Contents() == [] && tasks == []
      requires Plain(payloads) && NotLonger(payloads, longest) && NotLonger(chunks, largest)
      requires longest + 1 + largest < CAPACITY && Joined(chunks) <= Framed(payloads)
      modifies this, recvbuf
      ensures Valid() && tasks <= payloads && Framed(tasks) + Contents() == Joined(chunks)
      ensures Joined(chunks) == Framed(payloads) ==> tasks == payloads && Contents() == []
    {
      var i := ReceiveAll(chunks);
      if i < |chunks| { ChunksFit(payloads, chunks, longest, largest, i); }
      MessagesArrive(payloads, chunks);
    }
  }
}
