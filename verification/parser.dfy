/** The request parser as the object that owns the pending bytes (webcc/parser.cc, webcc/request_parser.cc),
    proved to do what module Parsing says. */
module Parser {
  import opened Text
  import opened Headers
  import opened Urls
  import opened Parsing
  import opened Cuts
  import opened Reference
  import opened Requests

  /** What a call of Parse comes to: true, false, or std::length_error. */
  datatype Status = Good | Bad | Thrown

  /** Going round a parsing loop again, leaving it, or giving up. */
  datatype Turn = Again | Leave | Error

  class RequestParser {
    var request: Request
    var viewMatcher: Matcher
    var pending: string
    var content: string
    var contentLength: nat
    var contentType: ContentType
    var startLineParsed: bool
    var contentLengthParsed: bool
    var headerEnded: bool
    var chunked: bool
    var chunkSize: nat
    var finished: bool
    var step: Step
    var part: Option<Part>
    var formParts: seq<Part>

    // ------------------------------------------------------------ abstraction

    ghost function HeadNow(): Head
      reads this, request
    {
      Head(startLineParsed, request.startLine, request.verb, request.url, request.headers,
           contentLength, contentLengthParsed, contentType, chunked)
    }

    ghost function PartsNow(): Multipart
      reads this
    {
      Multipart(step, part, formParts)
    }

    /** All of the parser's fields, and those of the request being filled in. */
    ghost function Model(): State
      reads this, request
    {
      State(HeadNow(), headerEnded, pending, content, chunkSize, PartsNow(), request.body, finished)
    }

    // ------------------------------------------------------------ life cycle

    constructor (r: Request, matcher: Matcher)
      requires r.startLine == "" && r.verb == "" && r.url == EMPTY_URL && r.headers == [] && r.body == NoBody
      ensures Model() == NEW_STATE && request == r && viewMatcher == matcher
    {
      request, viewMatcher := r, matcher;
      pending, content, contentLength, contentType := "", "", INVALID, NO_CONTENT_TYPE;
      startLineParsed, contentLengthParsed, headerEnded, chunked := false, false, false, false;
      chunkSize, finished := INVALID, false;
      step, part, formParts := Start, None, [];
    }

    /** Init for the next request on the connection. The multipart fields are not reset. */
    method Init(r: Request, matcher: Matcher)
      requires r.startLine == "" && r.verb == "" && r.url == EMPTY_URL && r.headers == [] && r.body == NoBody
      modifies this
      ensures Model() == NEW_STATE.(multipart := old(PartsNow()))
      ensures request == r && viewMatcher == matcher
    {
      Reset();
      request, viewMatcher := r, matcher;
    }

    /** Parser::Reset. */
    method Reset()
      modifies `pending, `content, `contentLength, `contentType, `startLineParsed
      modifies `contentLengthParsed, `headerEnded, `chunked, `chunkSize, `finished
      ensures HeadNow() == NEW_HEAD.(startLine := request.startLine, verb := request.verb, url := request.url,
                                    headers := request.headers)
      ensures !headerEnded && !finished && pending == content == "" && chunkSize == INVALID
    {
      content, pending := "", "";
      contentLength, contentType, startLineParsed, contentLengthParsed := INVALID, NO_CONTENT_TYPE, false, false;
      headerEnded, chunked, chunkSize, finished := false, false, INVALID, false;
    }

    /** The outcome of a call against the model, and the length Finish stores in the request. */
    twostate predicate Realises(o: Outcome, status: Status)
      reads this, request
    {
      match o
      case Ok(s) => status == Good && Model() == s
                    && (finished && !old(finished) ==> request.contentLength == contentLength)
      case Fail => status == Bad
      case Throw => status == Thrown
      case Hang => false
    }

    method Parse(data: string) returns (status: Status)
      requires Model().Valid() && !Feed(viewMatcher, Model(), data).Hang?
      modifies this, request
      ensures request == old(request) && viewMatcher == old(viewMatcher)
      ensures Realises(Feed(old(viewMatcher), old(Model()), data), status)
    {
      hide ReadHead, FeedContent;
      if headerEnded {
        status := ParseContent(data);
        return;
      }
      pending := pending + data;
      var ok := ParseHeaders();
      if !ok {
        return Bad;
      }
      if !headerEnded {
        return Good;
      }
      if !viewMatcher(request.verb, request.url.path) {
        return Bad;
      }
      status := ParseContent("");
    }

    // ------------------------------------------------------------ headers

    /** GetNextLine with `erase` true: the next line and its CRLF are taken off the pending bytes. */
    method TakeLine() returns (found: bool, line: string)
      modifies `pending
      ensures match NextLine(old(pending))
              case None => !found && pending == old(pending)
              case Some(l) => found && line == l.text && pending == l.rest
    {
      var pos := FindCrlf(pending, 0);
      if pos.None? {
        return false, "";
      }
      line := pending[..pos.value];
      pending := pending[pos.value + 2..];
      found := true;
    }

    ghost predicate HeadIs(r: HeadResult, ok: bool)
      reads this, request
    {
      match r
      case HeadBad => !ok
      case HeadMore(h, p) => ok && HeadNow() == h && !headerEnded && pending == p
      case HeadEnded(h, rest) => ok && HeadNow() == h && headerEnded && pending == rest
    }

    /** GetNextLine with `erase` false. */
    method PeekLine(off: nat) returns (found: bool, line: string)
      requires off <= |pending|
      ensures var k := FindCrlf(pending, off);
              found == k.Some? && (found ==> line == pending[off..k.value])
    {
      var pos := FindCrlf(pending, off);
      if pos.None? {
        return false, "";
      }
      found, line := true, pending[off..pos.value];
    }

    method ParseHeaders() returns (ok: bool)
      requires !headerEnded
      modifies `headerEnded, `pending, `startLineParsed, `contentLength, `contentLengthParsed, `contentType, `chunked
      modifies request`startLine, request`verb, request`url, request`headers
      ensures HeadIs(ReadHead(old(HeadNow()), old(pending)), ok)
    {
      var off := 0;
      assert pending[0..] == pending;
      ghost var result := ReadHead(HeadNow(), pending);
      while true
        invariant off <= |pending| && pending == old(pending) && !headerEnded
        invariant ReadHead(HeadNow(), pending[off..]) == result
        decreases |pending| - off
      {
        var turn;
        turn, off := TryHeaderLine(off);
        if turn == Error {
          return false;
        }
        if turn == Leave {
          break;
        }
      }
      pending := pending[off..];
      ok := true;
    }

    /** A turn of the loop of ParseHeaders: the line at `off`, if it is complete. */
    method TryHeaderLine(off: nat) returns (turn: Turn, next: nat)
      requires off <= |pending| && !headerEnded
      modifies `headerEnded, `startLineParsed, `contentLength, `contentLengthParsed, `contentType, `chunked
      modifies request`startLine, request`verb, request`url, request`headers
      ensures off <= next <= |pending|
      ensures ReadHead(old(HeadNow()), pending[off..]) ==
              match turn
              case Again => ReadHead(HeadNow(), pending[next..])
              case Leave =>
                if headerEnded then HeadEnded(HeadNow(), pending[next..]) else HeadMore(HeadNow(), pending[next..])
              case Error => HeadBad
      ensures turn == Again ==> off < next && !headerEnded
    {
      hide ReadHead, OnLine, FindCrlf;
      ReadHeadStep(HeadNow(), pending, off);
      var found, line := PeekLine(off);
      if !found {
        return Leave, off;
      }
      next := off + |line| + 2;
      if line == "" {
        headerEnded := true;
        return Leave, next;
      }
      var ok := ParseLine(line);
      turn := if ok then Again else Error;
    }

    /** The body of the loop of ParseHeaders for a line that is not empty. */
    method ParseLine(line: string) returns (ok: bool)
      modifies `startLineParsed, `contentLength, `contentLengthParsed, `contentType, `chunked
      modifies request`startLine, request`verb, request`url, request`headers
      ensures ok == OnLine(old(HeadNow()), line).Some?
      ensures ok ==> HeadNow() == OnLine(old(HeadNow()), line).value
    {
      if !startLineParsed {
        startLineParsed := true;
        request.startLine := line;
        ok := ParseStartLine(line);
      } else {
        ok := ParseHeaderLine(line);
      }
    }

    method ParseStartLine(line: string) returns (ok: bool)
      modifies request`verb, request`url
      ensures var tokens := SplitAll(line, ' ', true);
              ok == (|tokens| == 3) && (ok ==> request.verb == tokens[0] && request.url == ParseUrl(tokens[1]))
    {
      var strs := Split(line, ' ', true);
      if |strs| != 3 {
        return false;
      }
      request.verb := strs[0];
      var url := Urls.Parse(strs[1]);
      request.url := url;
      ok := true;
    }

    method ParseHeaderLine(line: string) returns (ok: bool)
      modifies `contentLength, `contentLengthParsed, `contentType, `chunked, request`headers
      ensures ok == OnHeaderLine(old(HeadNow()), line).Some?
      ensures ok ==> HeadNow() == OnHeaderLine(old(HeadNow()), line).value
    {
      var header := SplitKv(line, ':');
      if header.None? {
        return false;
      }
      var kv := header.value;
      ok := NoteHeader(kv);
      if ok {
        request.SetHeader(kv.key, kv.value);
      }
    }

    /** The cases of ParseHeaderLine that look at the key. */
    method NoteHeader(kv: KeyValue) returns (ok: bool)
      modifies `contentLength, `contentLengthParsed, `contentType, `chunked
      ensures ok == OnHeader(old(HeadNow()), kv).Some?
      ensures ok ==> HeadNow() == OnHeader(old(HeadNow()), kv).value
    {
      if IEquals(kv.key, CONTENT_LENGTH) {
        contentLengthParsed := true;
        var n := ToSize(kv.value, Dec);
        if n.None? {
          return false;
        }
        contentLength := n.value;
      } else if IEquals(kv.key, CONTENT_TYPE) {
        contentType := ParseContentType(kv.value);
        if !contentType.Valid() {
          return false;
        }
      } else if IEquals(kv.key, TRANSFER_ENCODING) {
        if kv.value == "chunked" {
          chunked := true;
        }
      }
      ok := true;
    }

    // ------------------------------------------------------------ content

    method ParseContent(data: string) returns (status: Status)
      requires Model().Valid() && !FeedContent(Model(), data).Hang?
      modifies `pending, `content, `chunkSize, `finished, `step, `part, `formParts
      modifies request`body, request`contentLength, request`headers
      ensures Realises(FeedContent(old(Model()), data), status)
    {
      hide FeedChunked, FeedMultipart, FeedFixed;
      if chunked {
        status := ChunkedContent(data);
      } else if contentType.multipart {
        status := MultipartContent(data);
      } else {
        status := ParseFixedContent(data);
      }
    }

    /** The result of the chunk loop as an outcome of the read. */
    method ChunkedContent(data: string) returns (status: Status)
      requires Model().Valid()
      modifies `pending, `content, `chunkSize, `finished, request`body, request`contentLength, request`headers
      ensures Realises(FeedChunked(old(Model()), data), status)
    {
      hide ReadChunks;
      status := ParseChunkedContent(data);
    }

    /** The result of the multipart loop as an outcome of the read. */
    method MultipartContent(data: string) returns (status: Status)
      requires Model().Valid() && !FeedMultipart(Model(), data).Hang?
      modifies `pending, `content, `finished, `step, `part, `formParts
      modifies request`body, request`contentLength, request`headers
      ensures Realises(FeedMultipart(old(Model()), data), status)
    {
      hide ReadParts;
      PartsEnd(contentType.additional, PartsNow(), pending + data);
      status := ParseMultipartContent(data);
    }

    method ParseFixedContent(data: string) returns (status: Status)
      modifies `pending, `content, `finished, request`body, request`contentLength, request`headers
      ensures Realises(FeedFixed(old(Model()), data), status)
    {
      if !contentLengthParsed {
        FinishBody();
        return Good;
      }
      if contentLength == INVALID {
        return Bad;
      }
      assert content + "" == content;
      if pending != "" {
        content := content + pending;
        pending := "";
      }
      content := content + data;
      if |content| >= contentLength {
        FinishBody();
      }
      status := Good;
    }

    /** Finish, with the body handler's own Finish. */
    method FinishBody()
      modifies `content, `finished, request`body, request`contentLength, request`headers
      ensures finished && content == "" && request.contentLength == contentLength
      ensures request.body == if old(content) == "" then old(request.body) else StringContent(old(content))
      ensures request.headers == old(request.headers)
    {
      finished := true;
      request.contentLength := contentLength;
      if content != "" {
        request.SetBody(StringContent(content), false, |content|, false);
        content := "";
      }
    }

    /** What the chunk loop leaves behind. */
    twostate predicate ChunksAre(r: ChunkResult, status: Status)
      reads this, request
    {
      && request.headers == old(request.headers)
      && match r
         case ChunkMore(c, n, p) =>
           status == Good && content == c && chunkSize == n && pending == p
           && finished == old(finished) && request.body == old(request.body)
         case ChunkDone(c, p) =>
           status == Good && content == "" && chunkSize == 0 && pending == p
           && finished && request.contentLength == contentLength
           && request.body == if c == "" then old(request.body) else StringContent(c)
         case ChunkBad => status == Bad
         case ChunkThrow => status == Thrown
    }

    method ParseChunkedContent(data: string) returns (status: Status)
      requires chunkSize < W
      modifies `pending, `content, `chunkSize, `finished, request`body, request`contentLength, request`headers
      ensures ChunksAre(ReadChunks(old(content), old(chunkSize), old(pending) + data), status)
    {
      pending := pending + data;
      ghost var result := ReadChunks(content, chunkSize, pending);
      while true
        invariant chunkSize < W
        invariant ReadChunks(content, chunkSize, pending) == result
        modifies `pending, `content, `chunkSize
        decreases |pending|
      {
        ghost var was := |pending|;
        if chunkSize == INVALID {
          var ok := ParseChunkSize();
          if !ok {
            return Bad;
          }
        }
        assert |pending| <= was && ReadChunk(content, chunkSize, pending) == result;
        if chunkSize == 0 {
          break;
        }
        var turn := TryChunk();
        if turn == Error {
          return Thrown;
        }
        if turn == Leave {
          break;
        }
      }
      if chunkSize == 0 {
        FinishBody();
      }
      status := Good;
    }

    /** The rest of a turn of the loop, for an open chunk. */
    method TryChunk() returns (turn: Turn)
      requires 0 < chunkSize < W
      modifies `pending, `content, `chunkSize
      ensures 0 < chunkSize < W
      ensures ReadChunk(old(content), old(chunkSize), old(pending)) ==
              match turn
              case Again => ReadChunks(content, chunkSize, pending)
              case Leave => ChunkMore(content, chunkSize, pending)
              case Error => ChunkThrow
      ensures turn == Again ==> |pending| < |old(pending)|
    {
      hide ReadChunks, ReadChunk;
      ChunkStep(content, chunkSize, pending);
      if (chunkSize + 2) % W <= |pending| {
        if chunkSize >= HUGE {
          return Error;
        }
        content := content + pending[..chunkSize];
        pending := pending[chunkSize + 2..];
        chunkSize := INVALID;
        turn := Again;
      } else if chunkSize > |pending| {
        content := content + pending;
        chunkSize := chunkSize - |pending|;
        pending := "";
        turn := Leave;
      } else {
        turn := Leave;
      }
    }

    method ParseChunkSize() returns (ok: bool)
      requires chunkSize == INVALID
      modifies `pending, `chunkSize
      ensures match NextLine(old(pending))
              case None => ok && pending == old(pending) && chunkSize == INVALID
              case Some(l) =>
                ok == SizeOf(l.text).Some? && pending == l.rest && (ok ==> chunkSize == SizeOf(l.text).value)
    {
      var found, line := TakeLine();
      if !found {
        return true;
      }
      var hexStr;
      var pos := Find(line, ' ');
      if pos.Some? {
        hexStr := line[..pos.value];
      } else {
        hexStr := line;
      }
      var n := ToSize(hexStr, Hex);
      if n.None? {
        return false;
      }
      chunkSize := n.value;
      ok := true;
    }

    // ------------------------------------------------------------ multipart content

    /** How a turn of the loop ends. */
    twostate predicate Turned(turn: Turn)
      requires old(PartsNow().Valid())
      reads this
    {
      var r := ReadParts(contentType.additional, old(PartsNow()), old(pending));
      match turn
      case Again => PartsNow().Valid() && |pending| < |old(pending)|
                    && r == ReadParts(contentType.additional, PartsNow(), pending)
      case Leave => r == if step == Ended then PartsEnded(PartsNow(), pending) else PartsMore(PartsNow(), pending)
      case Error => r == PartsBad
    }

    twostate predicate PartsAre(r: MultipartResult, status: Status)
      requires !r.PartsBad? && !r.PartsHang?
      reads this, request
    {
      && request.headers == old(request.headers)
      && status == Good && PartsNow() == r.m && pending == r.pending
      && if r.m.step == Ended then
           && content == "" && finished && request.contentLength == contentLength
           && request.body == if old(content) == "" then FormContent(r.m.parts, contentType.additional)
                              else StringContent(old(content))
         else content == old(content) && finished == old(finished) && request.body == old(request.body)
    }

    method ParseMultipartContent(data: string) returns (status: Status)
      requires PartsNow().Valid()
      requires LengthKnown(HeadNow()) ==> !ReadParts(contentType.additional, PartsNow(), pending + data).PartsHang?
      modifies `pending, `content, `finished, `step, `part, `formParts
      modifies request`body, request`contentLength, request`headers
      ensures var r := ReadParts(contentType.additional, old(PartsNow()), old(pending) + data);
              if !contentLengthParsed || contentLength == INVALID || r.PartsBad? then status == Bad
              else PartsAre(r, status)
    {
      hide ReadParts, IsBoundary, ReadPartHeaders, NextBoundary;
      pending := pending + data;
      if !contentLengthParsed || contentLength == INVALID {
        return Bad;
      }
      ghost var result := ReadParts(contentType.additional, PartsNow(), pending);
      while true
        invariant PartsNow().Valid()
        invariant ReadParts(contentType.additional, PartsNow(), pending) == result
        modifies `pending, `step, `part, `formParts
        decreases |pending|
      {
        if pending == "" {
          NoParts(contentType.additional, PartsNow());
          break;
        }
        if step == Ended {
          Stuck(contentType.additional, PartsNow(), pending);
        }
        var turn;
        if step == Start {
          turn := TryFirstBoundary();
        } else if step == BoundaryParsed {
          turn := TryPartHeaders();
        } else {
          turn := TryPartData();
        }
        if turn == Error {
          return Bad;
        }
        if turn == Leave {
          break;
        }
      }
      if step == Ended {
        request.SetBody(FormContent(formParts, contentType.additional), false, 0, false);
        FinishBody();
      }
      status := Good;
    }

    /** The branch of the loop for kStart. */
    method TryFirstBoundary() returns (turn: Turn)
      requires step == Start && pending != ""
      modifies `pending, `step
      ensures Turned(turn) && step == if turn == Again then BoundaryParsed else Start
    {
      var found, line := TakeLine();
      if !found {
        return Leave;
      }
      var isBoundary, _ := CheckBoundary(line, 0, |line|, false);
      assert line[0..|line|] == line;
      if !isBoundary {
        return Error;
      }
      step := BoundaryParsed;
      turn := Again;
    }

    /** The branch of the loop for kBoundaryParsed. */
    method TryPartHeaders() returns (turn: Turn)
      requires step == BoundaryParsed && pending != ""
      modifies `pending, `step, `part
      ensures Turned(turn) && step == if turn == Again then HeadersParsed else BoundaryParsed
    {
      PartHeadersShrink(None, pending);
      HeadersStep(contentType.additional, PartsNow(), pending);
      hide ReadParts, ReadPartHeaders;
      if part.None? {
        part := Some(Part("", "", ""));
      }
      var ok, needMoreData := ParsePartHeaders();
      if ok {
        step := HeadersParsed;
        turn := Again;
      } else if needMoreData {
        turn := Leave;
      } else {
        turn := Error;
      }
    }

    /** The branch of the loop for kHeadersParsed. */
    method TryPartData() returns (turn: Turn)
      requires step == HeadersParsed && part.Some? && pending != ""
      modifies `pending, `step, `part, `formParts
      ensures Turned(turn) && old(formParts) <= formParts
      ensures if turn == Again then step == BoundaryParsed
              else step == HeadersParsed || (turn == Leave && step == Ended)
    {
      hide ReadParts, NextBoundary;
      var found, off, count, ended := GetNextBoundaryLine();
      if !found {
        DataWaits(contentType.additional, PartsNow(), pending);
        return Leave;
      }
      DataStep(contentType.additional, PartsNow(), pending, BoundaryLine(off, count, ended));
      if off <= 2 {
        return Error;
      }
      SavePart(pending[..off - 2]);
      pending := pending[off + count + 2..];
      if ended {
        step := Ended;
        turn := Leave;
      } else {
        step := BoundaryParsed;
        turn := Again;
      }
    }

    /** The data of the current part is complete. */
    method SavePart(data: string)
      requires part.Some?
      modifies `part, `formParts
      ensures part == None && formParts == NextPart(old(PartsNow()), data).parts
    {
      part := Some(part.value.(data := part.value.data + data));
      formParts := formParts + [part.value];
      part := None;
    }

    twostate predicate PartHeadersAre(r: PartResult, ok: bool, needMoreData: bool)
      reads this
    {
      match r
      case PartMore(d) =>
        !ok && needMoreData && pending == old(pending) && part == Some(Described(PartOrNew(old(part)), d))
      case PartBad => !ok && !needMoreData
      case PartDone(d, rest) => ok && pending == rest && part == Some(Described(PartOrNew(old(part)), d))
    }

    method ParsePartHeaders() returns (ok: bool, needMoreData: bool)
      requires part.Some?
      modifies `pending, `part
      ensures PartHeadersAre(ReadPartHeaders(None, old(pending)), ok, needMoreData)
    {
      var off := 0;
      assert pending[0..] == pending;
      ghost var p, d: Option<Disposition> := part.value, None;
      ghost var result := ReadPartHeaders(None, pending);
      while true
        invariant off <= |pending| && pending == old(pending)
        invariant part == Some(Described(p, d))
        invariant ReadPartHeaders(d, pending[off..]) == result
        decreases |pending| - off
      {
        var turn, ended;
        turn, off, ended, d := TryPartLine(off, p, d);
        if turn == Error {
          return false, false;
        }
        if turn == Leave {
          if !ended {
            return false, true;
          }
          break;
        }
      }
      pending := pending[off..];
      ok, needMoreData := true, false;
    }

    /** What a line at `off` means for the headers from there on. */
    ghost predicate PartLineIs(r: PartResult, turn: Turn, next: nat, ended: bool, e: Option<Disposition>)
      requires next <= |pending|
      reads this
    {
      r == match turn
           case Again => ReadPartHeaders(e, pending[next..])
           case Leave => if ended then PartDone(e, pending[next..]) else PartMore(e)
           case Error => PartBad
    }

    /** A turn of the loop of ParsePartHeaders: the line at `off`, if it is complete. `d` is the disposition of
        the lines before, `e` that of the lines up to this one; `p` is the part as it was before them. */
    method TryPartLine(off: nat, ghost p: Part, ghost d: Option<Disposition>)
      returns (turn: Turn, next: nat, ended: bool, ghost e: Option<Disposition>)
      requires off <= |pending| && part == Some(Described(p, d))
      modifies `part
      ensures off <= next <= |pending| && (turn == Again ==> off < next)
      ensures PartLineIs(ReadPartHeaders(d, pending[off..]), turn, next, ended, e)
      ensures turn != Error ==> part == Some(Described(p, e))
    {
      hide ReadPartHeaders, OnPartLine, NextLine, FindCrlf, Described;
      ReadPartStep(d, pending, off);
      e, ended := d, false;
      var found, line := PeekLine(off);
      if !found {
        return Leave, off, false, e;
      }
      next := off + |line| + 2;
      if line == "" {
        return Leave, next, true, e;
      }
      var ok;
      ok, e := NotePartLine(line, p, d);
      turn := if ok then Again else Error;
    }

    /** A part header line that is not empty; only its Content-Disposition matters. */
    method NotePartLine(line: string, ghost p: Part, ghost d: Option<Disposition>)
      returns (ok: bool, ghost e: Option<Disposition>)
      requires part == Some(Described(p, d))
      modifies `part
      ensures OnPartLine(d, line) == if ok then Some(e) else None
      ensures ok ==> part == Some(Described(p, e))
    {
      e := d;
      var header := SplitKv(line, ':');
      if header.None? {
        return false, e;
      }
      if IEquals(header.value.key, CONTENT_DISPOSITION) {
        var disposition := InitDisposition(header.value.value);
        if disposition.None? {
          return false, e;
        }
        part := Some(part.value.(name := disposition.value.name));
        part := Some(part.value.(fileName := disposition.value.fileName));
        e := disposition;
      }
      ok := true;
    }

    method GetNextBoundaryLine() returns (found: bool, bOff: nat, bCount: nat, ended: bool)
      ensures match NextBoundary(contentType.additional, pending, 0, false)
              case None => !found
              case Some(b) => found && bOff == b.off && bCount == b.count && ended == b.ended
    {
      hide NextBoundary, IsBoundary, DashLine, FindCrlf;
      var off := 0;
      ended := false;
      ghost var result := NextBoundary(contentType.additional, pending, 0, false);
      while true
        invariant off <= |pending|
        invariant NextBoundary(contentType.additional, pending, off, ended) == result
        decreases |pending| - off
      {
        BoundaryScan(contentType.additional, pending, off, ended);
        var pos := FindCrlf(pending, off);
        if pos.None? {
          break;
        }
        var count := pos.value - off;
        if count == 0 {
          off := pos.value + 2;
          continue;
        }
        var isBoundary;
        isBoundary, ended := CheckBoundary(pending, off, count, ended);
        if isBoundary {
          return true, off, count, ended;
        }
        off := pos.value + 2;
      }
      found, bOff, bCount := false, 0, 0;
    }

    /** IsBoundary on the line at `off`; `end` is what `*end` holds before and after. */
    method CheckBoundary(str: string, off: nat, count: nat, end: bool) returns (r: bool, endAfter: bool)
      requires off + count <= |str|
      ensures r == IsBoundary(contentType.additional, str[off..off + count])
      ensures endAfter == (end || DashLine(contentType.additional, str[off..off + count]))
    {
      var boundary := contentType.additional;
      endAfter := end;
      if count != |boundary| + 2 && count != |boundary| + 4 {
        return false, endAfter;
      }
      if str[off] != '-' || str[off + 1] != '-' {
        return false, endAfter;
      }
      if count == |boundary| + 4 {
        if str[off + count - 1] != '-' || str[off + count - 2] != '-' {
          return false, endAfter;
        }
        endAfter := true;
      }
      assert str[off + 2..off + count] == str[off..off + count][2..];
      r := SameChars(boundary, str[off + 2..off + count], |boundary|);
    }
  }

  /** The loop is left by its end-boundary branch with the last step. */
  lemma PartsEnd(boundary: string, m: Multipart, s: string)
    requires m.Valid()
    ensures ReadParts(boundary, m, s).PartsEnded? ==> ReadParts(boundary, m, s).m.step == Ended
  {
    hide ReadParts;
    if m.step != Ended {
      PartsKeepValid(boundary, m, s);
    } else if s == "" {
      NoParts(boundary, m);
    } else {
      Stuck(boundary, m, s);
    }
  }

  /** One turn of the header loop, at an offset into the pending bytes. */
  lemma ReadHeadStep(h: Head, s: string, off: nat)
    requires off <= |s|
    ensures ReadHead(h, s[off..]) ==
            match FindCrlf(s, off)
            case None => HeadMore(h, s[off..])
            case Some(k) =>
              if k == off then HeadEnded(h, s[k + 2..])
              else
                match OnLine(h, s[off..k])
                case None => HeadBad
                case Some(g) => ReadHead(g, s[k + 2..])
  {
    hide OnLine, NextLine, FindCrlf;
    NextLineAt(s, off);
  }

  lemma ReadPartStep(d: Option<Disposition>, s: string, off: nat)
    requires off <= |s|
    ensures ReadPartHeaders(d, s[off..]) ==
            match FindCrlf(s, off)
            case None => PartMore(d)
            case Some(k) =>
              if k == off then PartDone(d, s[k + 2..])
              else
                match OnPartLine(d, s[off..k])
                case None => PartBad
                case Some(e) => ReadPartHeaders(e, s[k + 2..])
  {
    hide OnPartLine, NextLine, FindCrlf;
    NextLineAt(s, off);
  }
}
