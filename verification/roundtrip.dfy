/** Whole requests: what a sender writes, cut into reads in any way, is what the receiver ends up with. */
module RoundTrip {
  import opened Text
  import opened Headers
  import opened Urls
  import opened Parsing
  import opened Chunked
  import opened Cuts
  import opened Reference
  import opened Form
  import opened Printing

  // ---------------------------------------------------------------- chunked bodies

  /** A chunk as it is sent: its size line, with any extension, and its data. */
  datatype Chunk = Chunk(line: string, data: string)

  ghost predicate ValidChunk(c: Chunk) {
    NoCrlf(c.line) && SizeLine(c.line, |c.data|) && 0 < |c.data| < HUGE
  }

  /** The chunked coding of a body: the chunks, a size line that reads 0, and whatever follows it. */
  function ChunkedBytes(chunks: seq<Chunk>, last: string, trailer: string): string
  {
    if chunks == [] then last + CRLF + trailer
    else chunks[0].line + CRLF + (chunks[0].data + CRLF + ChunkedBytes(chunks[1..], last, trailer))
  }

  function JoinedChunks(chunks: seq<Chunk>): string {
    if chunks == [] then "" else chunks[0].data + JoinedChunks(chunks[1..])
  }

  ghost predicate ValidChunks(chunks: seq<Chunk>, last: string) {
    (forall i :: 0 <= i < |chunks| ==> ValidChunk(chunks[i])) && NoCrlf(last) && SizeLine(last, 0)
  }

  lemma SizesRead(chunks: seq<Chunk>, last: string)
    requires ValidChunks(chunks, last)
    ensures SizeOf(last) == Some(0)
    ensures forall i :: 0 <= i < |chunks| ==> SizeOf(chunks[i].line) == Some(|chunks[i].data|)
  {
    hide SizeLine, SizeOf;
    SizeLineMeaning(last, 0);
    forall i | 0 <= i < |chunks| ensures SizeOf(chunks[i].line) == Some(|chunks[i].data|) {
      assert ValidChunk(chunks[i]);
      SizeLineMeaning(chunks[i].line, |chunks[i].data|);
    }
  }

  lemma {:induction false} DataSkipped(content: string, data: string, rest: string)
    ensures Decode(content, Some(|data|), data + CRLF + rest) == Decode(content + data, None, rest)
    ensures Bounded(Some(|data|), data + CRLF + rest) == Bounded(None, rest)
  {
    hide Decode, Bounded;
    var s := data + CRLF + rest;
    assert s[..|data|] == data && s[|data| + 2..] == rest;
    DecodeFull(content, |data|, s);
    BoundedChunk(|data|, s);
  }

  /** A size line of a chunk, or of the last chunk, is taken off first. */
  lemma {:induction false} SizeLineRead(content: string, line: string, rest: string)
    requires NoCrlf(line) && SizeOf(line).Some?
    ensures var n := SizeOf(line).value;
            && Decode(content, None, line + CRLF + rest)
               == (if n == 0 then Done(content, rest) else Decode(content, Some(n), rest))
            && Bounded(None, line + CRLF + rest) == (n < HUGE && (n == 0 || Bounded(Some(n), rest)))
  {
    hide Decode, Bounded, SizeOf, NextLine;
    NextLineOf(line, rest);
    DecodeLine(content, line + CRLF + rest);
    BoundedLine(line + CRLF + rest);
  }

  /** Decoding inverts the coding. */
  lemma {:induction false} ChunkedRoundTrip(content: string, chunks: seq<Chunk>, last: string, trailer: string)
    requires ValidChunks(chunks, last)
    ensures Decode(content, None, ChunkedBytes(chunks, last, trailer)) == Done(content + JoinedChunks(chunks), trailer)
    ensures Bounded(None, ChunkedBytes(chunks, last, trailer))
    decreases |chunks|
  {
    hide Decode, Bounded, SizeOf, NoCrlf, SizeLine;
    SizesRead(chunks, last);
    if chunks == [] {
      SizeLineRead(content, last, trailer);
      assert content + "" == content;
    } else {
      var c := chunks[0];
      var rest := ChunkedBytes(chunks[1..], last, trailer);
      SizeLineRead(content, c.line, c.data + CRLF + rest);
      DataSkipped(content, c.data, rest);
      ChunkedRoundTrip(content + c.data, chunks[1..], last, trailer);
      assert content + c.data + JoinedChunks(chunks[1..]) == content + JoinedChunks(chunks);
    }
  }

  /** Every size has a size line: its hexadecimal digits. */
  lemma HexLine(n: nat)
    requires n < W
    ensures NoCrlf(ToDigits(n, Hex)) && SizeOf(ToDigits(n, Hex)) == Some(n) && SizeLine(ToDigits(n, Hex), n)
  {
    var s := ToDigits(n, Hex);
    DigitsArePlain(n, Hex);
    forall k | 0 <= k < |s| ensures s[k] != '\r' && s[k] != ' ' {
      assert s[k] in s;
    }
    assert Find(s, ' ').None?;
    SizeRoundTrip(n, Hex);
    SizeLineMeaning(s, n);
  }

  /** Is `k` strictly inside a size line, or between it and the end of its CRLF? */
  predicate InSizeLine(chunks: seq<Chunk>, last: string, k: nat)
    decreases |chunks|
  {
    if chunks == [] then 0 < k < |last| + 2
    else
      var size := |chunks[0].line| + 2;
      var whole := size + |chunks[0].data| + 2;
      if k < size then k > 0 else k >= whole && InSizeLine(chunks[1..], last, k - whole)
  }

  lemma {:induction false} CutInLine(content: string, line: string, rest: string, k: nat)
    requires NoCrlf(line) && k < |line| + 2
    ensures Decode(content, None, (line + CRLF + rest)[..k]) == Decoding(content, None, (line + CRLF + rest)[..k])
  {
    hide Decode;
    NoLineYet(line, k);
    assert (line + CRLF + rest)[..k] == (line + CRLF)[..k];
    DecodeLine(content, (line + CRLF + rest)[..k]);
  }

  /** A cut in the last size line or after it. */
  lemma {:induction false} CutOfLast(content: string, last: string, trailer: string, k: nat)
    requires NoCrlf(last) && SizeOf(last) == Some(0) && k <= |last + CRLF + trailer|
    ensures PartialSizeLine(Decode(content, None, (last + CRLF + trailer)[..k])) <==> 0 < k < |last| + 2
  {
    hide Decode, SizeOf, NoCrlf;
    if k < |last| + 2 {
      CutInLine(content, last, trailer, k);
    } else {
      var t := trailer[..k - |last| - 2];
      SizeLineRead(content, last, t);
      assert (last + CRLF + trailer)[..k] == last + CRLF + t;
    }
  }

  /** A cut behind a size line is a cut of what the line announces. */
  lemma {:induction false} CutBehindLine(content: string, line: string, size: nat, body: string, k: nat)
    requires NoCrlf(line) && SizeOf(line) == Some(size) && size > 0 && |line| + 2 <= k <= |line + CRLF + body|
    ensures Decode(content, None, (line + CRLF + body)[..k]) == Decode(content, Some(size), body[..k - |line| - 2])
  {
    hide Decode, SizeOf, NoCrlf;
    var t := body[..k - |line| - 2];
    assert (line + CRLF + body)[..k] == line + CRLF + t;
    SizeLineRead(content, line, t);
  }

  /** A cut inside the data of a chunk or its CRLF. */
  lemma {:induction false} CutInData(content: string, data: string, rest: string, k: nat)
    requires k < |data| + 2
    ensures Decode(content, Some(|data|), (data + CRLF + rest)[..k]).Decoding?
    ensures Decode(content, Some(|data|), (data + CRLF + rest)[..k]).left.Some?
  {
    DecodePartial(content, |data|, (data + CRLF + rest)[..k]);
  }

  /** A cut of the coding leaves part of a size line in hand exactly when it falls inside one. */
  lemma {:induction false} CutOfChunks(content: string, chunks: seq<Chunk>, last: string, trailer: string, k: nat)
    requires ValidChunks(chunks, last) && k <= |ChunkedBytes(chunks, last, trailer)|
    ensures PartialSizeLine(Decode(content, None, ChunkedBytes(chunks, last, trailer)[..k]))
            <==> InSizeLine(chunks, last, k)
    decreases |chunks|
  {
    hide Decode, SizeOf, NextLine, SizeLine;
    SizesRead(chunks, last);
    if chunks == [] {
      CutOfLast(content, last, trailer, k);
    } else {
      var c := chunks[0];
      var rest := ChunkedBytes(chunks[1..], last, trailer);
      var body := c.data + CRLF + rest;
      var size := |c.line| + 2;
      var whole := size + |c.data| + 2;
      if k < size {
        CutInLine(content, c.line, body, k);
      } else {
        CutBehindLine(content, c.line, |c.data|, body, k);
        if k < whole {
          CutInData(content, c.data, rest, k - size);
        } else {
          assert body[..k - size] == c.data + CRLF + rest[..k - whole];
          DataSkipped(content, c.data, rest[..k - whole]);
          CutOfChunks(content + c.data, chunks[1..], last, trailer, k - whole);
        }
      }
    }
  }

  // ---------------------------------------------------------------- cuts of a request

  lemma {:induction false} ConcatTake(pieces: seq<string>, j: nat)
    requires j <= |pieces|
    ensures Concat(pieces[..j]) <= Concat(pieces)
    ensures j > 0 ==> Concat(pieces[..j]) == pieces[0] + Concat(pieces[1..][..j - 1])
  {
    if j > 0 {
      assert pieces[..j][1..] == pieces[1..][..j - 1];
      ConcatTake(pieces[1..], j - 1);
    }
  }

  lemma ConcatShift(x: string, pieces: seq<string>, j: nat)
    requires 0 < j <= |pieces|
    ensures x + Concat(pieces[..j]) == x + pieces[0] + Concat(pieces[1..][..j - 1])
  {
    ConcatTake(pieces, j);
  }

  lemma {:induction false} SplitHere(matches: Matcher, x: string, pieces: seq<string>, j: nat)
    requires 0 < j <= |pieces| && SplitsSizeLine(matches, x + Concat(pieces[..j]))
    ensures SomeSplit(matches, x, pieces)
    decreases j
  {
    var y, more := x + pieces[0], pieces[1..];
    ConcatShift(x, pieces, j);
    if j == 1 {
      assert y + Concat(more[..0]) == y;
    } else {
      SplitHere(matches, y, more, j - 1);
    }
  }

  lemma {:induction false} WhereSplit(matches: Matcher, x: string, pieces: seq<string>) returns (j: nat)
    requires SomeSplit(matches, x, pieces)
    ensures 0 < j <= |pieces| && SplitsSizeLine(matches, x + Concat(pieces[..j]))
    decreases |pieces|
  {
    var y, more := x + pieces[0], pieces[1..];
    if SplitsSizeLine(matches, y) {
      j := 1;
      ConcatShift(x, pieces, 1);
      assert y + Concat(more[..0]) == y;
    } else {
      j := WhereSplit(matches, y, more);
      j := j + 1;
      ConcatShift(x, pieces, j);
    }
  }

  /** Some read splits a size line if and only if the bytes up to the end of some read do. */
  lemma SomeSplitAt(matches: Matcher, x: string, pieces: seq<string>)
    ensures SomeSplit(matches, x, pieces)
            <==> exists j :: 0 < j <= |pieces| && SplitsSizeLine(matches, x + Concat(pieces[..j]))
  {
    if SomeSplit(matches, x, pieces) {
      var j := WhereSplit(matches, x, pieces);
    }
    forall j | 0 < j <= |pieces| && SplitsSizeLine(matches, x + Concat(pieces[..j]))
      ensures SomeSplit(matches, x, pieces)
    {
      SplitHere(matches, x, pieces, j);
    }
  }

  /** Reads of a request whose head ends in `h` and whose body does not end early are all good ones. */
  lemma {:induction false} ReadsAreGood(
    matches: Matcher, x: string, pieces: seq<string>, head: string, h: Head, body: string)
    requires ReadHead(NEW_HEAD, head) == HeadEnded(h, "")
    requires x + Concat(pieces) == head + body
    requires !h.chunked && (FixedMode(h) ==> |body| <= h.contentLength)
    ensures GoodReads(matches, x, pieces)
    decreases |pieces|
  {
    if pieces != [] {
      var y := x + pieces[0];
      assert y + Concat(pieces[1..]) == head + body;
      PrefixHead(head, h, body, y, Concat(pieces[1..]));
      ReadsAreGood(matches, y, pieces[1..], head, h, body);
    }
  }

  /** What the parser has read of the head and body when it has been fed part of them. */
  lemma {:induction false} PrefixHead(head: string, h: Head, body: string, y: string, z: string)
    requires ReadHead(NEW_HEAD, head) == HeadEnded(h, "") && y + z == head + body
    ensures ReadHead(NEW_HEAD, head + body) == HeadEnded(h, body)
    ensures match ReadHead(NEW_HEAD, y)
            case HeadEnded(g, r) => g == h && r + z == body
            case HeadMore(_, _) => true
            case HeadBad => false
  {
    HeadExtend(NEW_HEAD, head, body);
    HeadExtend(NEW_HEAD, y, z);
    assert "" + body == body;
  }

  // ---------------------------------------------------------------- whole requests

  /** Every cut of `x` into reads gets the answer `v`, and no cut of less than `x` gets any. */
  ghost predicate AnsweredAtEnd(matches: Matcher, x: string, v: Verdict) {
    && (forall pieces :: Concat(pieces) == x ==> Run(matches, NEW_STATE, pieces) == v)
    && (forall pieces :: Concat(pieces) < x ==> Run(matches, NEW_STATE, pieces) == Waiting)
  }

  /** Every cut of `x` into reads gets one and the same answer, and it is not `v`. */
  ghost predicate AnsweredOtherwise(matches: Matcher, x: string, v: Verdict) {
    && Answer(matches, x) != v
    && (forall pieces :: Concat(pieces) == x ==> Run(matches, NEW_STATE, pieces) == Answer(matches, x))
  }

  lemma NotBoth(matches: Matcher, x: string, v: Verdict)
    ensures !AnsweredAtEnd(matches, x, v) || !AnsweredOtherwise(matches, x, v)
  {
    OnePiece(x);
  }

  /** Reads of a request without a chunked body that is not longer than announced. */
  lemma {:induction false} AllGood(matches: Matcher, head: string, h: Head, body: string)
    requires ReadHead(NEW_HEAD, head) == HeadEnded(h, "")
    requires !h.chunked && (FixedMode(h) ==> |body| <= h.contentLength)
    ensures forall pieces :: Concat(pieces) == head + body ==>
              Run(matches, NEW_STATE, pieces) == Answer(matches, head + body)
  {
    hide ReadHead, Run, ReadParts, GoodReads;
    HeadThenBody(head, h, body);
    forall pieces | Concat(pieces) == head + body
      ensures Run(matches, NEW_STATE, pieces) == Answer(matches, head + body)
    {
      assert "" + Concat(pieces) == head + body;
      ReadsAreGood(matches, "", pieces, head, h, body);
      RunMeetsReference(matches, pieces);
    }
  }

  /** The body is complete exactly with its last byte. */
  predicate EndsExactly(h: Head, body: string)
  {
    if h.chunked then false
    else if h.contentType.multipart then
      LengthKnown(h)
      && match ReadParts(h.contentType.additional, NEW_MULTIPART, body)
         case PartsEnded(_, p) => p == ""
         case _ => false
    else if h.contentLengthParsed then LengthKnown(h) && |body| == h.contentLength
    else body == ""
  }

  lemma {:induction false} PrefixWaits(matches: Matcher, head: string, h: Head, body: string, y: string)
    requires ReadHead(NEW_HEAD, head) == HeadEnded(h, "") && matches(h.verb, h.url.path)
    requires EndsExactly(h, body) && y < head + body
    ensures Answer(matches, y) == Waiting
  {
    var z := (head + body)[|y|..];
    assert y + z == head + body;
    PrefixHead(head, h, body, y, z);
    match ReadHead(NEW_HEAD, y)
    case HeadEnded(_, r) =>
      if h.contentType.multipart {
        PartsExtend(h.contentType.additional, NEW_MULTIPART, r, z);
      }
    case HeadMore(_, _) =>
  }

  lemma {:induction false} AnsweredExactly(matches: Matcher, head: string, h: Head, body: string)
    requires ReadHead(NEW_HEAD, head) == HeadEnded(h, "") && matches(h.verb, h.url.path)
    requires EndsExactly(h, body)
    ensures AnsweredAtEnd(matches, head + body, AnswerBody(h, body))
  {
    hide ReadHead, Run, ReadParts, GoodReads;
    var x := head + body;
    HeadThenBody(head, h, body);
    AllGood(matches, head, h, body);
    forall pieces | Concat(pieces) < x ensures Run(matches, NEW_STATE, pieces) == Waiting {
      var y := Concat(pieces);
      var z := x[|y|..];
      assert y + z == x;
      PrefixHead(head, h, body, y, z);
      ReadsAreGoodBefore(matches, pieces, head, h, body, z);
      RunMeetsReference(matches, pieces);
      PrefixWaits(matches, head, h, body, y);
    }
  }

  lemma {:induction false} ReadsAreGoodBefore(
    matches: Matcher, pieces: seq<string>, head: string, h: Head, body: string, z: string)
    requires ReadHead(NEW_HEAD, head) == HeadEnded(h, "")
    requires Concat(pieces) + z == head + body
    requires !h.chunked && (FixedMode(h) ==> |body| <= h.contentLength)
    ensures GoodReads(matches, "", pieces)
  {
    ConcatAppend(pieces, z);
    assert "" + Concat(pieces + [z]) == head + body;
    ReadsAreGood(matches, "", pieces + [z], head, h, body);
    GoodReadsTake(matches, "", pieces, z);
  }

  lemma {:induction false} ConcatAppend(pieces: seq<string>, z: string)
    ensures Concat(pieces + [z]) == Concat(pieces) + z
  {
    if pieces == [] {
      assert [] + [z] == [z];
      assert [z][1..] == [];
    } else {
      ConcatAppend(pieces[1..], z);
      assert (pieces + [z])[1..] == pieces[1..] + [z];
    }
  }

  lemma {:induction false} GoodReadsTake(matches: Matcher, x: string, pieces: seq<string>, z: string)
    requires GoodReads(matches, x, pieces + [z])
    ensures GoodReads(matches, x, pieces)
    decreases |pieces|
  {
    if pieces != [] {
      assert (pieces + [z])[1..] == pieces[1..] + [z];
      GoodReadsTake(matches, x + pieces[0], pieces[1..], z);
    }
  }

  /** What a sender must see to about start line and headers. */
  ghost predicate SoundHead(matches: Matcher, startLine: string, verb: string, url: Url, hs: seq<Header>) {
    && OnStartLine(NEW_HEAD, startLine) == Some(Started(startLine, verb, url))
    && startLine != "" && NoCrlf(startLine) && Sound(hs)
    && matches(verb, url.path)
  }

  lemma {:induction false} SoundHeadEnds(matches: Matcher, startLine: string, verb: string, url: Url, hs: seq<Header>)
    requires SoundHead(matches, startLine, verb, url, hs)
    ensures ReadHead(NEW_HEAD, HeadBytes(startLine, hs)) == HeadEnded(HeadWith(Started(startLine, verb, url), hs), "")
  {
    HeadRoundTrip(startLine, verb, url, hs, "");
    assert HeadBytes(startLine, hs) + "" == HeadBytes(startLine, hs);
  }

  /** A request with a body of announced length, or with neither a length nor a body. */
  lemma {:induction false} RequestRoundTrip(
    matches: Matcher, startLine: string, verb: string, url: Url, hs: seq<Header>, body: string)
    requires SoundHead(matches, startLine, verb, url, hs)
    requires Lookup(hs, TRANSFER_ENCODING) != Some("chunked")
    requires Lookup(hs, CONTENT_TYPE).None? || MediaOf(Lookup(hs, CONTENT_TYPE).value) != "multipart/form-data"
    requires if body == "" then Lookup(hs, CONTENT_LENGTH).None? || Lookup(hs, CONTENT_LENGTH) == Some(ToDigits(0, Dec))
             else |body| < INVALID && Lookup(hs, CONTENT_LENGTH) == Some(ToDigits(|body|, Dec))
    ensures AnsweredAtEnd(matches, HeadBytes(startLine, hs) + body,
              Complete(Message(startLine, verb, url, hs,
                               if Lookup(hs, CONTENT_LENGTH).None? then INVALID else |body|, TextBody(body))))
  {
    var h := HeadWith(Started(startLine, verb, url), hs);
    if Lookup(hs, CONTENT_TYPE).Some? {
      ContentTypeMeaning(Lookup(hs, CONTENT_TYPE).value);
    }
    SoundHeadEnds(matches, startLine, verb, url, hs);
    SizeRoundTrip(if |body| < INVALID then |body| else 0, Dec);
    assert body[..|body|] == body;
    AnsweredExactly(matches, HeadBytes(startLine, hs), h, body);
  }

  /** A form request of which `items` are meant and `written` are written, where some data may have been lost: with
      any announced length, the receiver ends up with the parts that were meant, on the last byte and under every cut,
      if and only if nothing has been lost and the items are sendable, and under no cut otherwise. */
  lemma {:induction false} FormRequestRoundTrip(
    matches: Matcher, startLine: string, verb: string, url: Url, hs: seq<Header>, size: nat, boundary: string,
    items: seq<Item>, written: seq<Item>)
    requires SoundHead(matches, startLine, verb, url, hs)
    requires Lookup(hs, TRANSFER_ENCODING) != Some("chunked")
    requires boundary != "" && Trimmed(boundary) && items != []
    requires Wellformed(boundary, items) && Emptied(items, written)
    requires Lookup(hs, CONTENT_TYPE) == Some(FormContentType(boundary))
    requires size < INVALID && Lookup(hs, CONTENT_LENGTH) == Some(ToDigits(size, Dec))
    ensures var x := HeadBytes(startLine, hs) + FormBytes(boundary, written);
            var v := Complete(Message(startLine, verb, url, hs, size, FormContent(Received(items), boundary)));
            if written == items && Sendable(boundary, items) then AnsweredAtEnd(matches, x, v)
            else AnsweredOtherwise(matches, x, v)
  {
    hide Run, ReadHead, HeadBytes, FormBytes, Sendable, Wellformed, Sound, AnsweredAtEnd, AnsweredOtherwise, ToDigits,
         ToSize;
    var h := HeadWith(Started(startLine, verb, url), hs);
    var head := HeadBytes(startLine, hs);
    SoundHeadEnds(matches, startLine, verb, url, hs);
    FormContentTypeRoundTrip(boundary);
    SizeRoundTrip(size, Dec);
    if written == items && Sendable(boundary, items) {
      FormRoundTrip(boundary, items);
      AnsweredExactly(matches, head, h, FormBytes(boundary, items));
    } else {
      StillWellformed(boundary, items, written);
      UnsendableAnswer(matches, head, h, boundary, items, written);
    }
  }

  lemma StillWellformed(boundary: string, items: seq<Item>, written: seq<Item>)
    requires Wellformed(boundary, items) && Emptied(items, written)
    ensures Wellformed(boundary, written)
  {
  }

  /** A part that is empty, or missing, or has lost its end is not one that was meant. */
  lemma {:induction false} NotMeant(parts: seq<Part>, items: seq<Item>, written: seq<Item>)
    requires Emptied(items, written) && (|parts| < |items| || Shortened(parts, 0, written))
    ensures parts != Received(items)
  {
    ReceivedAt(items);
  }

  lemma {:induction false} LostIsUnsendable(boundary: string, items: seq<Item>, written: seq<Item>)
    requires Emptied(items, written) && written != items
    ensures !Sendable(boundary, written)
  {
    hide Unambiguous, Lookalike;
    if written[0] == items[0] {
      assert written == [written[0]] + written[1..] && items == [items[0]] + items[1..];
      LostIsUnsendable(boundary, items[1..], written[1..]);
    }
  }

  lemma {:induction false} UnsendableAnswer(
    matches: Matcher, head: string, h: Head, boundary: string, items: seq<Item>, written: seq<Item>)
    requires ReadHead(NEW_HEAD, head) == HeadEnded(h, "") && matches(h.verb, h.url.path)
    requires !h.chunked && h.contentType.multipart && h.contentType.additional == boundary && LengthKnown(h)
    requires items != [] && Wellformed(boundary, written) && Emptied(items, written)
    requires written != items || !Sendable(boundary, items)
    ensures AnsweredOtherwise(matches, head + FormBytes(boundary, written),
                              Complete(MessageOf(h, FormContent(Received(items), boundary))))
  {
    hide ReadHead, ReadParts, Run, FormBytes, Sendable, Wellformed, Shortened, Emptied, Received;
    var body := FormBytes(boundary, written);
    HeadThenBody(head, h, body);
    AllGood(matches, head, h, body);
    SameCount(items, written);
    if written != items {
      LostIsUnsendable(boundary, items, written);
    }
    FewerParts(boundary, written);
    match ReadParts(boundary, NEW_MULTIPART, body)
    case PartsEnded(m, _) => NotMeant(m.parts, items, written);
    case _ =>
  }

  lemma SameCount(items: seq<Item>, written: seq<Item>)
    requires Emptied(items, written)
    ensures |items| == |written|
  {
  }

  /** A chunked request under every cut: it is received with the chunks joined if and only if no read ends
      inside a chunk-size line; otherwise the parser throws. A Content-Length next to the coding is stored and
      makes no difference. */
  lemma {:induction false} ChunkedRequestRoundTrip(
    matches: Matcher, startLine: string, verb: string, url: Url, hs: seq<Header>,
    chunks: seq<Chunk>, last: string, trailer: string, pieces: seq<string>)
    requires SoundHead(matches, startLine, verb, url, hs)
    requires Lookup(hs, TRANSFER_ENCODING) == Some("chunked")
    requires ValidChunks(chunks, last)
    requires Concat(pieces) == HeadBytes(startLine, hs) + ChunkedBytes(chunks, last, trailer)
    ensures var cutInLine := exists j ::
              0 < j <= |pieces| && CutInSizeLine(HeadBytes(startLine, hs), chunks, last, Concat(pieces[..j]));
            Run(matches, NEW_STATE, pieces) ==
            if cutInLine then Threw
            else Complete(Message(startLine, verb, url, hs, HeadWith(Started(startLine, verb, url), hs).contentLength,
                                  TextBody(JoinedChunks(chunks))))
  {
    hide Run, ReadHead, HeadBytes, ValidChunks, CutInSizeLine, Sound;
    var h := HeadWith(Started(startLine, verb, url), hs);
    SoundHeadEnds(matches, startLine, verb, url, hs);
    ChunkedRuns(matches, HeadBytes(startLine, hs), h, chunks, last, trailer, pieces);
  }

  lemma {:induction false} ChunkedAnswer(
    matches: Matcher, head: string, h: Head, chunks: seq<Chunk>, last: string, trailer: string)
    requires ReadHead(NEW_HEAD, head) == HeadEnded(h, "") && h.chunked && matches(h.verb, h.url.path)
    requires ValidChunks(chunks, last)
    ensures var x := head + ChunkedBytes(chunks, last, trailer);
            Answer(matches, x) == Complete(MessageOf(h, TextBody(JoinedChunks(chunks)))) && SizesBounded(matches, x)
  {
    hide ReadHead, Decode, Bounded, ValidChunks;
    HeadThenBody(head, h, ChunkedBytes(chunks, last, trailer));
    ChunkedRoundTrip("", chunks, last, trailer);
    assert "" + JoinedChunks(chunks) == JoinedChunks(chunks);
  }

  lemma {:induction false} ChunkedRuns(
    matches: Matcher, head: string, h: Head, chunks: seq<Chunk>, last: string, trailer: string, pieces: seq<string>)
    requires ReadHead(NEW_HEAD, head) == HeadEnded(h, "") && h.chunked && matches(h.verb, h.url.path)
    requires ValidChunks(chunks, last) && Concat(pieces) == head + ChunkedBytes(chunks, last, trailer)
    ensures Run(matches, NEW_STATE, pieces) ==
            if exists j :: 0 < j <= |pieces| && CutInSizeLine(head, chunks, last, Concat(pieces[..j])) then Threw
            else Complete(MessageOf(h, TextBody(JoinedChunks(chunks))))
  {
    hide Run, Answer, ReadHead, SizesBounded, SomeSplit, GoodReads, SplitsSizeLine, CutInSizeLine, ValidChunks;
    ChunkedAnswer(matches, head, h, chunks, last, trailer);
    RunMeetsReference(matches, pieces);
    SomeSplitAt(matches, "", pieces);
    forall j | 0 < j <= |pieces|
      ensures SplitsSizeLine(matches, "" + Concat(pieces[..j]))
              == CutInSizeLine(head, chunks, last, Concat(pieces[..j]))
    {
      ConcatTake(pieces, j);
      assert "" + Concat(pieces[..j]) == Concat(pieces[..j]);
      CutOfRequest(matches, head, h, chunks, last, trailer, Concat(pieces[..j]));
    }
    if !SomeSplit(matches, "", pieces) {
      assert "" + Concat(pieces) == Concat(pieces);
      NoSplitIsGood(matches, "", pieces, head, h, ChunkedBytes(chunks, last, trailer));
    }
  }

  /** Does `y`, the bytes up to the end of a read, end inside a chunk-size line? */
  predicate CutInSizeLine(head: string, chunks: seq<Chunk>, last: string, y: string) {
    |y| >= |head| && InSizeLine(chunks, last, |y| - |head|)
  }

  lemma {:induction false} CutOfRequest(
    matches: Matcher, head: string, h: Head, chunks: seq<Chunk>, last: string, trailer: string, y: string)
    requires ReadHead(NEW_HEAD, head) == HeadEnded(h, "") && h.chunked && matches(h.verb, h.url.path)
    requires ValidChunks(chunks, last) && y <= head + ChunkedBytes(chunks, last, trailer)
    ensures SplitsSizeLine(matches, y) == CutInSizeLine(head, chunks, last, y)
  {
    hide ReadHead, Decode, ValidChunks, SizeOf;
    var body := ChunkedBytes(chunks, last, trailer);
    if |y| >= |head| {
      var k := |y| - |head|;
      assert y == head + body[..k];
      HeadThenBody(head, h, body[..k]);
      CutOfChunks("", chunks, last, trailer, k);
    } else {
      assert head == y + head[|y|..];
      HeadExtend(NEW_HEAD, y, head[|y|..]);
    }
  }

  lemma {:induction false} HeadThenBody(head: string, h: Head, body: string)
    requires ReadHead(NEW_HEAD, head) == HeadEnded(h, "")
    ensures ReadHead(NEW_HEAD, head + body) == HeadEnded(h, body)
  {
    hide ReadHead;
    HeadExtend(NEW_HEAD, head, body);
    assert "" + body == body;
  }

  lemma {:induction false} NoSplitIsGood(
    matches: Matcher, x: string, pieces: seq<string>, head: string, h: Head, body: string)
    requires ReadHead(NEW_HEAD, head) == HeadEnded(h, "") && h.chunked
    requires x + Concat(pieces) == head + body && !SomeSplit(matches, x, pieces)
    ensures GoodReads(matches, x, pieces)
    decreases |pieces|
  {
    if pieces != [] {
      var y := x + pieces[0];
      assert y + Concat(pieces[1..]) == head + body;
      PrefixHead(head, h, body, y, Concat(pieces[1..]));
      NoSplitIsGood(matches, y, pieces[1..], head, h, body);
    }
  }
}
