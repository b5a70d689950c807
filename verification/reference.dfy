/** The answer a parser should give to the bytes it has been sent, whatever the reads, and exactly when this
    parser gives it. */
module Reference {
  import opened Text
  import opened Headers
  import opened Parsing
  import opened Chunked
  import opened Cuts

  // ---------------------------------------------------------------- the reference answer

  function TextBody(content: string): Body {
    if content == "" then NoBody else StringContent(content)
  }

  function AnswerChunked(h: Head, rest: string): Verdict
  {
    match Decode("", None, rest)
    case Decoding(_, _, _) => Waiting
    case Done(c, _) => Complete(MessageOf(h, TextBody(c)))
    case Malformed => Failed
  }

  function AnswerMultipart(h: Head, rest: string): Verdict
  {
    if !LengthKnown(h) then Failed
    else
      match ReadParts(h.contentType.additional, NEW_MULTIPART, rest)
      case PartsEnded(m, _) => Complete(MessageOf(h, FormContent(m.parts, h.contentType.additional)))
      case PartsBad => Failed
      case _ => Waiting
  }

  /** The content is what Content-Length announces, not what happened to be read. */
  function AnswerFixed(h: Head, rest: string): Verdict
  {
    if !h.contentLengthParsed then Complete(MessageOf(h, NoBody))
    else if h.contentLength == INVALID then Failed
    else if |rest| < h.contentLength then Waiting
    else Complete(MessageOf(h, TextBody(rest[..h.contentLength])))
  }

  function AnswerBody(h: Head, rest: string): Verdict {
    if h.chunked then AnswerChunked(h, rest)
    else if h.contentType.multipart then AnswerMultipart(h, rest)
    else AnswerFixed(h, rest)
  }

  /** The answer to all the bytes received so far; it looks at them at once. */
  function Answer(matches: Matcher, x: string): Verdict
  {
    match ReadHead(NEW_HEAD, x)
    case HeadBad => Failed
    case HeadMore(_, _) => Waiting
    case HeadEnded(h, rest) => if matches(h.verb, h.url.path) then AnswerBody(h, rest) else Failed
  }

  /** Without a Content-Length, or with one of 2^64 - 1, a form is rejected, and a body that is neither a form nor
      chunked is none or is rejected. */
  lemma LengthMatters(h: Head, rest: string)
    requires !h.chunked && (!h.contentLengthParsed || h.contentLength == 0xffff_ffff_ffff_ffff)
    ensures AnswerBody(h, rest) ==
            if h.contentType.multipart || h.contentLengthParsed then Failed else Complete(MessageOf(h, NoBody))
  {
  }

  // ---------------------------------------------------------------- reads the parser cannot cope with

  /** A read ends inside a chunk-size line. */
  predicate SplitsSizeLine(matches: Matcher, x: string)
  {
    match ReadHead(NEW_HEAD, x)
    case HeadEnded(h, rest) => matches(h.verb, h.url.path) && h.chunked && PartialSizeLine(Decode("", None, rest))
    case _ => false
  }

  /** The number of body bytes among `x`, or -1 if the headers have not ended. */
  function BodyBytes(x: string): int
  {
    match ReadHead(NEW_HEAD, x)
    case HeadEnded(_, rest) => |rest|
    case _ => -1
  }

  predicate FixedMode(h: Head) {
    !h.chunked && !h.contentType.multipart && LengthKnown(h)
  }

  /** A read starts before the end of a body of announced length and ends after it. */
  predicate CrossesEnd(matches: Matcher, before: string, after: string)
  {
    match ReadHead(NEW_HEAD, after)
    case HeadEnded(h, rest) =>
      matches(h.verb, h.url.path) && FixedMode(h) && BodyBytes(before) < h.contentLength < |rest|
    case _ => false
  }

  predicate BadRead(matches: Matcher, before: string, after: string) {
    SplitsSizeLine(matches, after) || CrossesEnd(matches, before, after)
  }

  /** No read, of those that follow `x`, is a bad one. */
  predicate GoodReads(matches: Matcher, x: string, pieces: seq<string>)
    decreases |pieces|
  {
    pieces == [] || (!BadRead(matches, x, x + pieces[0]) && GoodReads(matches, x + pieces[0], pieces[1..]))
  }

  predicate SomeSplit(matches: Matcher, x: string, pieces: seq<string>)
    decreases |pieces|
  {
    pieces != [] && (SplitsSizeLine(matches, x + pieces[0]) || SomeSplit(matches, x + pieces[0], pieces[1..]))
  }

  /** No chunk-size line announces 2^64 - 2 bytes or more. */
  predicate SizesBounded(matches: Matcher, x: string)
  {
    match ReadHead(NEW_HEAD, x)
    case HeadEnded(h, rest) => matches(h.verb, h.url.path) && h.chunked ==> Bounded(None, rest)
    case _ => true
  }

  // ---------------------------------------------------------------- one read

  /** A parser in the middle of a body: `rest` is all of the body it has been fed. */
  ghost predicate InBody(s: State, rest: string)
  {
    && s.body == NoBody && s.Valid()
    && (if s.head.chunked then
          && Between(s.chunkSize, s.pending) && Decode("", None, rest) == View(s.content, s.chunkSize, s.pending)
          && Bounded(None, rest)
        else if s.head.contentType.multipart then
          && LengthKnown(s.head) && s.content == "" && s.multipart.step != Ended
          && ReadParts(s.head.contentType.additional, NEW_MULTIPART, rest) == PartsMore(s.multipart, s.pending)
        else
          && LengthKnown(s.head) && s.pending == "" && s.content == rest && |rest| < s.head.contentLength)
  }

  /** `s` is a parser that has been fed `x` and has not answered yet. */
  ghost predicate Represents(matches: Matcher, s: State, x: string)
  {
    !s.finished
    && match ReadHead(NEW_HEAD, x)
       case HeadBad => false
       case HeadMore(h, p) => s == NEW_STATE.(head := h, pending := p)
       case HeadEnded(h, rest) => s.headEnded && s.head == h && matches(h.verb, h.url.path) && InBody(s, rest)
  }

  /** The outcome of one read against the reference answer to all the bytes up to its end. */
  ghost predicate Meets(o: Outcome, h: Head, rest: string, answer: Verdict, splits: bool, crosses: bool)
  {
    match o
    case Fail => answer == Failed && !splits && !crosses
    case Throw => splits && !crosses
    case Hang => false
    case Ok(t) =>
      && t.head == h && t.headEnded && !splits
      && if t.finished then answer.Complete? && (crosses <==> Complete(MessageOf(t.head, t.body)) != answer)
         else answer == Waiting && InBody(t, rest) && !crosses
  }

  /** From a state between reads, the loop agrees with the decoder resumed from its view of that state, on what is heard
      of the data that has been read. */
  lemma {:induction false} ChunkResume(content: string, size: nat, pending: string, data: string)
    returns (heard: string)
    requires size < W && Between(size, pending)
    ensures var v := View(content, size, pending);
            && Heard(v.left, v.pending + data) == v.pending + heard
            && (if Bounded(v.left, v.pending + heard)
                then Agree(ReadChunks(content, size, pending + data), Decode(v.content, v.left, v.pending + heard))
                else ReadChunks(content, size, pending + data) == ChunkThrow)
  {
    hide ReadChunks, Decode, Bounded, Heard, Agree;
    LoopRefinesDecoder(content, size, pending + data);
    if size == INVALID {
      heard := Heard(None, data);
      assert "" + data == data && "" + heard == heard;
    } else {
      var k := Min(size, |pending|);
      HeardOpen(size, pending, data, k);
      heard := Heard(Some(size), pending + data)[|pending|..];
      assert pending == pending[..k] + pending[k..];
      assert pending + heard == pending[..k] + (pending[k..] + heard);
      BoundedOpen(size, pending, heard);
      DecodeOpen(content, size, pending, heard);
    }
  }

  lemma {:induction false} ChunkedRead(s: State, rest: string, data: string) returns (heard: string)
    requires s.head.chunked && s.headEnded && !s.finished && InBody(s, rest)
    ensures Heard(None, rest + data) == rest + heard
    ensures if Bounded(None, rest + heard)
            then Meets(FeedContent(s, data), s.head, rest + heard, AnswerChunked(s.head, rest + heard),
                       PartialSizeLine(Decode("", None, rest + heard)), false)
            else FeedContent(s, data) == Throw
  {
    hide ReadChunks, Decode, Bounded, Heard;
    heard := ChunkResume(s.content, s.chunkSize, s.pending, data);
    HeardExtend("", None, rest, data);
    var p := View(s.content, s.chunkSize, s.pending).pending;
    assert rest[..|rest| - |p|] + (p + heard) == rest + heard;
    DecodeExtend("", None, rest, heard);
    BoundedExtend("", None, rest, heard);
  }

  lemma {:induction false} MultipartRead(s: State, rest: string, data: string)
    requires !s.head.chunked && s.head.contentType.multipart && s.headEnded && !s.finished && InBody(s, rest)
    ensures Meets(FeedContent(s, data), s.head, rest + data, AnswerMultipart(s.head, rest + data), false, false)
  {
    var boundary := s.head.contentType.additional;
    PartsExtend(boundary, NEW_MULTIPART, rest, data);
    PartsKeepValid(boundary, s.multipart, s.pending + data);
  }

  lemma FixedRead(s: State, rest: string, data: string)
    requires !s.head.chunked && !s.head.contentType.multipart && s.headEnded && !s.finished && InBody(s, rest)
    ensures Meets(FeedContent(s, data), s.head, rest + data, AnswerFixed(s.head, rest + data), false,
                  |rest| < s.head.contentLength < |rest + data|)
  {
    var n := s.head.contentLength;
    assert s.content + s.pending + data == rest + data;
    if n == |rest + data| {
      assert (rest + data)[..n] == rest + data;
    }
  }

  /** The reads that end while the headers are being read, and those that follow. */
  lemma {:induction false} HeadRead(matches: Matcher, s: State, x: string, data: string)
    requires !s.headEnded && Represents(matches, s, x)
    ensures ReadHead(NEW_HEAD, x + data) == ReadHead(s.head, s.pending + data)
    ensures BodyBytes(x) == -1
  {
    HeadExtend(NEW_HEAD, x, data);
  }

  lemma {:induction false} BodyStarts(s: State)
    requires s == NEW_STATE.(head := s.head, headEnded := true, pending := s.pending)
    ensures var rest := if s.head.chunked then Heard(None, s.pending) else s.pending;
            if s.head.chunked && !Bounded(None, rest) then FeedContent(s, "") == Throw
            else Meets(FeedContent(s, ""), s.head, rest, AnswerBody(s.head, rest),
                       s.head.chunked && PartialSizeLine(Decode("", None, rest)),
                       FixedMode(s.head) && s.head.contentLength < |rest|)
  {
    hide ReadChunks, Decode, Bounded, Heard, ReadParts;
    assert s.pending + "" == s.pending;
    if s.head.chunked {
      LoopRefinesDecoder("", INVALID, s.pending);
    } else if s.head.contentType.multipart {
      PartsKeepValid(s.head.contentType.additional, NEW_MULTIPART, s.pending);
    } else {
      assert "" + s.pending + "" == s.pending;
      if s.head.contentLength == |s.pending| {
        assert s.pending[..|s.pending|] == s.pending;
      }
    }
  }

  /** What the outcome of a read means for the bytes received up to its end. */
  ghost predicate ReadIsRight(matches: Matcher, o: Outcome, before: string, x: string)
  {
    match o
    case Fail => Answer(matches, x) == Failed && !BadRead(matches, before, x)
    case Throw => SplitsSizeLine(matches, x)
    case Hang => false
    case Ok(t) =>
      && !SplitsSizeLine(matches, x)
      && if t.finished then
           Answer(matches, x).Complete?
           && (CrossesEnd(matches, before, x) <==> Complete(MessageOf(t.head, t.body)) != Answer(matches, x))
         else Represents(matches, t, x) && Answer(matches, x) == Waiting && !BadRead(matches, before, x)
  }

  /** The bytes without a last size line of 2^64 - 1 that nothing follows: the parser forgets such a line. */
  function HeardBytes(matches: Matcher, x: string): string
  {
    match ReadHead(NEW_HEAD, x)
    case HeadEnded(h, rest) =>
      if matches(h.verb, h.url.path) && h.chunked && |rest| <= |x| then x[..|x| - |rest|] + Heard(None, rest) else x
    case _ => x
  }

  lemma {:induction false} HeardBody(matches: Matcher, x: string, heard: string)
    requires ReadHead(NEW_HEAD, x).HeadEnded?
    requires var r := ReadHead(NEW_HEAD, x);
             r.h.chunked && matches(r.h.verb, r.h.url.path) && Heard(None, r.rest) == heard
    ensures var r, y := ReadHead(NEW_HEAD, x), HeardBytes(matches, x);
            ReadHead(NEW_HEAD, y) == HeadEnded(r.h, heard) && |r.rest| <= |x| && y == x[..|x| - |r.rest|] + heard
  {
    hide ReadHead, Heard;
    var r := ReadHead(NEW_HEAD, x);
    HeadAlone(NEW_HEAD, x);
    HeadExtend(NEW_HEAD, x[..|x| - |r.rest|], heard);
    assert "" + heard == heard;
  }

  lemma HeardOther(matches: Matcher, x: string)
    requires var r := ReadHead(NEW_HEAD, x); r.HeadEnded? ==> !r.h.chunked || !matches(r.h.verb, r.h.url.path)
    ensures HeardBytes(matches, x) == x
  {
    hide ReadHead;
  }

  /** A read is right for what has been heard up to its end, unless that has too large a size: then the parser
      throws. */
  lemma {:induction false} OneRead(matches: Matcher, s: State, x: string, data: string)
    requires s.Valid() && Represents(matches, s, x)
    ensures var y := HeardBytes(matches, x + data);
            x <= y && if SizesBounded(matches, y) then ReadIsRight(matches, Feed(matches, s, data), x, y)
                      else Feed(matches, s, data) == Throw
  {
    hide ReadHead, FeedContent, Decode, ReadParts, Heard, HeardBytes, Bounded;
    if s.headEnded {
      HeadExtend(NEW_HEAD, x, data);
      var rest := ReadHead(NEW_HEAD, x).rest;
      if s.head.chunked {
        var heard := ChunkedRead(s, rest, data);
        HeardBody(matches, x + data, rest + heard);
        HeadAlone(NEW_HEAD, x);
        assert (x + data)[..|x + data| - |rest + data|] + (rest + heard) == x + heard;
      } else {
        HeardOther(matches, x + data);
        if s.head.contentType.multipart {
          MultipartRead(s, rest, data);
        } else {
          FixedRead(s, rest, data);
        }
      }
    } else {
      HeadRead(matches, s, x, data);
      match ReadHead(s.head, s.pending + data)
      case HeadEnded(h, rest) =>
        BodyStarts(s.(head := h, headEnded := true, pending := rest));
        FirstBody(matches, x, data, h, rest);
      case _ => HeardOther(matches, x + data);
    }
  }

  /** The head ends in this read, so that all of what is forgotten is in it, too. */
  lemma {:induction false} FirstBody(matches: Matcher, x: string, data: string, h: Head, rest: string)
    requires ReadHead(NEW_HEAD, x + data) == HeadEnded(h, rest) && !ReadHead(NEW_HEAD, x).HeadEnded?
    ensures var y := HeardBytes(matches, x + data);
            && x <= y
            && (!matches(h.verb, h.url.path) || !h.chunked ==> y == x + data)
            && (matches(h.verb, h.url.path) && h.chunked ==> ReadHead(NEW_HEAD, y) == HeadEnded(h, Heard(None, rest)))
  {
    hide ReadHead, Heard, HeardBytes;
    if matches(h.verb, h.url.path) && h.chunked {
      HeardBody(matches, x + data, Heard(None, rest));
      HeadAlone(NEW_HEAD, x + data);
      var head := (x + data)[..|x + data| - |rest|];
      if |x| > |head| {
        assert x == head + x[|head|..];
        HeadExtend(NEW_HEAD, head, x[|head|..]);
      }
      assert x <= head;
    } else {
      HeardOther(matches, x + data);
    }
  }

  // ---------------------------------------------------------------- all reads

  /** An answer is final, and no read after it is a bad one. */
  lemma {:induction false} AnswerIsFinal(matches: Matcher, x: string, y: string)
    requires Answer(matches, x) != Waiting
    ensures Answer(matches, x + y) == Answer(matches, x)
    ensures !BadRead(matches, x, x + y) && !SplitsSizeLine(matches, x + y)
  {
    HeadExtend(NEW_HEAD, x, y);
    match ReadHead(NEW_HEAD, x)
    case HeadEnded(h, rest) =>
      if matches(h.verb, h.url.path) {
        BodyAnswerIsFinal(h, rest, y);
      }
    case _ =>
  }

  lemma {:induction false} BodyAnswerIsFinal(h: Head, rest: string, y: string)
    requires AnswerBody(h, rest) != Waiting
    ensures AnswerBody(h, rest + y) == AnswerBody(h, rest)
    ensures h.chunked ==> !Decode("", None, rest + y).Decoding?
    ensures FixedMode(h) ==> h.contentLength <= |rest|
  {
    if h.chunked {
      DecodeExtend("", None, rest, y);
    } else if h.contentType.multipart {
      PartsExtend(h.contentType.additional, NEW_MULTIPART, rest, y);
      PartsKeepValid(h.contentType.additional, NEW_MULTIPART, rest);
    } else if LengthKnown(h) {
      assert (rest + y)[..h.contentLength] == rest[..h.contentLength];
    }
  }

  lemma {:induction false} ReadsAfterAnswer(matches: Matcher, x: string, pieces: seq<string>)
    requires Answer(matches, x) != Waiting
    ensures GoodReads(matches, x, pieces) && !SomeSplit(matches, x, pieces)
    ensures Answer(matches, x + Concat(pieces)) == Answer(matches, x)
    decreases |pieces|
  {
    AnswerIsFinal(matches, x, Concat(pieces));
    if pieces != [] {
      AnswerIsFinal(matches, x, pieces[0]);
      ReadsAfterAnswer(matches, x + pieces[0], pieces[1..]);
    }
  }

  lemma {:induction false} SizesBoundedPrefix(matches: Matcher, x: string, y: string)
    ensures SizesBounded(matches, x + y) ==> SizesBounded(matches, x)
    ensures SizesBounded(matches, x) && Answer(matches, x) != Waiting ==> SizesBounded(matches, x + y)
  {
    hide Bounded, Decode, ReadHead;
    HeadExtend(NEW_HEAD, x, y);
    match ReadHead(NEW_HEAD, x)
    case HeadEnded(h, rest) =>
      if h.chunked {
        BoundedExtend("", None, rest, y);
      }
    case _ =>
  }

  /** The reads, each without what is forgotten of it. */
  function HeardReads(matches: Matcher, x: string, pieces: seq<string>): seq<string>
    decreases |pieces|
  {
    if pieces == [] then []
    else
      var y := HeardBytes(matches, x + pieces[0]);
      if x <= y then [y[|x|..]] + HeardReads(matches, y, pieces[1..]) else pieces
  }

  /** Nothing is forgotten unless a size is too large. */
  lemma {:induction false} AllHeardReads(matches: Matcher, x: string, pieces: seq<string>)
    requires SizesBounded(matches, x + Concat(pieces))
    ensures HeardReads(matches, x, pieces) == pieces
    decreases |pieces|
  {
    hide ReadHead, HeardBytes, SizesBounded;
    if pieces != [] {
      var y := x + pieces[0];
      assert x + Concat(pieces) == y + Concat(pieces[1..]);
      SizesBoundedPrefix(matches, y, Concat(pieces[1..]));
      AllHeardBytes(matches, y);
      AllHeardReads(matches, y, pieces[1..]);
    }
  }

  lemma {:induction false} AllHeardBytes(matches: Matcher, x: string)
    requires SizesBounded(matches, x)
    ensures HeardBytes(matches, x) == x
  {
    hide ReadHead, Heard, Bounded;
    match ReadHead(NEW_HEAD, x)
    case HeadEnded(h, rest) =>
      HeadAlone(NEW_HEAD, x);
      if h.chunked && matches(h.verb, h.url.path) {
        AllHeard(None, rest);
      }
    case _ =>
  }

  /** For all bytes and all ways of cutting them into reads: the parser gives the reference answer to what it hears
      exactly when no read is a bad one and no size is too large, and throws exactly when some read ends inside a
      chunk-size line or a size is too large. */
  lemma {:induction false} RunFrom(matches: Matcher, s: State, x: string, pieces: seq<string>)
    requires s.Valid() && Represents(matches, s, x)
    ensures var heard := HeardReads(matches, x, pieces);
            var z := x + Concat(heard);
            && (Run(matches, s, pieces) == Answer(matches, z)
                <==> GoodReads(matches, x, heard) && SizesBounded(matches, z))
            && (Run(matches, s, pieces) == Threw <==> SomeSplit(matches, x, heard) || !SizesBounded(matches, z))
    decreases |pieces|
  {
    hide ReadHead, Feed, HeardBytes, Answer, SplitsSizeLine, CrossesEnd, SizesBounded, Represents;
    if pieces == [] {
      assert x + "" == x;
      AnswersWaiting(matches, s, x);
    } else {
      var y := HeardBytes(matches, x + pieces[0]);
      OneRead(matches, s, x, pieces[0]);
      var data, more := y[|x|..], HeardReads(matches, y, pieces[1..]);
      assert x + data == y;
      assert x + Concat([data] + more) == y + Concat(more);
      FeedKeepsValid(matches, s, pieces[0]);
      SizesBoundedPrefix(matches, y, Concat(more));
      NeverThrows(matches, y + Concat(more));
      if SizesBounded(matches, y) {
        match Feed(matches, s, pieces[0])
        case Fail => ReadsAfterAnswer(matches, y, more);
        case Throw =>
        case Hang =>
        case Ok(t) =>
          if t.finished {
            ReadsAfterAnswer(matches, y, more);
          } else {
            RunFrom(matches, t, y, pieces[1..]);
          }
      }
    }
  }

  lemma NeverThrows(matches: Matcher, x: string)
    ensures Answer(matches, x) != Threw && Answer(matches, x) != Hung
  {
  }

  lemma AnswersWaiting(matches: Matcher, s: State, x: string)
    requires Represents(matches, s, x)
    ensures Answer(matches, x) == Waiting && SizesBounded(matches, x)
  {
  }

  lemma FreshParserRepresents(matches: Matcher)
    ensures Represents(matches, NEW_STATE, "")
  {
  }

  /** The same for a new parser. Everything is heard unless a size is too large. */
  lemma RunMeetsReference(matches: Matcher, pieces: seq<string>)
    ensures var heard := HeardReads(matches, "", pieces);
            var z := Concat(heard);
            && (Run(matches, NEW_STATE, pieces) == Answer(matches, z)
                <==> GoodReads(matches, "", heard) && SizesBounded(matches, z))
            && (Run(matches, NEW_STATE, pieces) == Threw
                <==> SomeSplit(matches, "", heard) || !SizesBounded(matches, z))
    ensures SizesBounded(matches, Concat(pieces)) ==> HeardReads(matches, "", pieces) == pieces
  {
    FreshParserRepresents(matches);
    var heard := HeardReads(matches, "", pieces);
    assert "" + Concat(pieces) == Concat(pieces) && "" + Concat(heard) == Concat(heard);
    RunFrom(matches, NEW_STATE, "", pieces);
    if SizesBounded(matches, Concat(pieces)) {
      AllHeardReads(matches, "", pieces);
    }
  }

  /** Two ways of cutting of which the same bytes are heard, neither with a bad read, get the same answer. */
  lemma CutIndependence(matches: Matcher, cut1: seq<string>, cut2: seq<string>)
    requires var heard1, heard2 := HeardReads(matches, "", cut1), HeardReads(matches, "", cut2);
             Concat(heard1) == Concat(heard2) && GoodReads(matches, "", heard1) && GoodReads(matches, "", heard2)
    ensures Run(matches, NEW_STATE, cut1) == Run(matches, NEW_STATE, cut2)
  {
    RunMeetsReference(matches, cut1);
    RunMeetsReference(matches, cut2);
  }
}
