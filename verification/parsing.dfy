/** The incremental request parser as a function from a state and the bytes of one read to the next state
    (webcc/parser.cc, webcc/request_parser.cc). Gzip is off and bodies are not streamed to files. */
module Parsing {
  import opened Text
  import opened Headers
  import opened Urls

  // ---------------------------------------------------------------- head

  /** The start line, the headers and what the parser notes down while reading them. */
  datatype Head = Head(
    startLineParsed: bool, startLine: string, verb: string, url: Url, headers: seq<Header>,
    contentLength: nat, contentLengthParsed: bool, contentType: ContentType, chunked: bool)

  const NEW_HEAD := Head(false, "", "", EMPTY_URL, [], INVALID, false, NO_CONTENT_TYPE, false)

  /** ParseStartLine: method, target and version, separated by runs of spaces. */
  function OnStartLine(h: Head, line: string): Option<Head>
  {
    var tokens := SplitAll(line, ' ', true);
    if |tokens| != 3 then None
    else Some(h.(startLineParsed := true, startLine := line, verb := tokens[0], url := ParseUrl(tokens[1])))
  }

  /** ParseHeaderLine. */
  function OnHeaderLine(h: Head, line: string): Option<Head>
  {
    match SplitKv(line, ':')
    case None => None
    case Some(kv) => OnHeader(h.(headers := AfterSet(h.headers, kv.key, kv.value)), kv)
  }

  function OnHeader(h: Head, kv: KeyValue): Option<Head>
  {
    if IEquals(kv.key, CONTENT_LENGTH) then
      match ToSize(kv.value, Dec)
      case None => None
      case Some(n) => Some(h.(contentLengthParsed := true, contentLength := n))
    else if IEquals(kv.key, CONTENT_TYPE) then
      var ct := ParseContentType(kv.value);
      if ct.Valid() then Some(h.(contentType := ct)) else None
    else if IEquals(kv.key, TRANSFER_ENCODING) then
      Some(h.(chunked := h.chunked || kv.value == "chunked"))
    else Some(h)
  }

  function OnLine(h: Head, line: string): Option<Head> {
    if h.startLineParsed then OnHeaderLine(h, line) else OnStartLine(h, line)
  }

  /** What ParseHeaders makes of the pending bytes: still reading, ended before `rest`, or a syntax error. */
  datatype HeadResult = HeadMore(h: Head, pending: string) | HeadEnded(h: Head, rest: string) | HeadBad

  function ReadHead(h: Head, s: string): HeadResult
    decreases |s|
  {
    match NextLine(s)
    case None => HeadMore(h, s)
    case Some(l) =>
      if l.text == "" then HeadEnded(h, l.rest)
      else
        match OnLine(h, l.text)
        case None => HeadBad
        case Some(g) => ReadHead(g, l.rest)
  }

  // ---------------------------------------------------------------- chunked body

  /** Counts that std::string::append refuses with std::length_error; adding 2 to them wraps around. */
  const HUGE: nat := W - 2

  datatype ChunkResult =
    | ChunkMore(content: string, size: nat, pending: string)
    | ChunkDone(content: string, pending: string)
    | ChunkBad
    | ChunkThrow

  /** The part of a chunk-size line that is converted to a number. */
  function SizeField(line: string): string
  {
    match Find(line, ' ')
    case None => line
    case Some(p) => line[..p]
  }

  function SizeOf(line: string): Option<nat> {
    ToSize(SizeField(line), Hex)
  }

  /** The loop of ParseChunkedContent from its head: `size` is chunk_size_, unset when INVALID. Without a
      complete size line ParseChunkSize succeeds and leaves the size unset. */
  function ReadChunks(content: string, size: nat, s: string): ChunkResult
    requires size < W
    decreases |s|, 1
  {
    if size != INVALID then ReadChunk(content, size, s)
    else
      match NextLine(s)
      case None => ReadChunk(content, INVALID, s)
      case Some(l) =>
        match SizeOf(l.text)
        case None => ChunkBad
        case Some(n) => ReadChunk(content, n, l.rest)
  }

  /** The rest of the loop body. `size + 2` is computed modulo 2^64. */
  function ReadChunk(content: string, size: nat, s: string): ChunkResult
    requires size < W
    decreases |s|, 0
  {
    if size == 0 then ChunkDone(content, s)
    else if (size + 2) % W <= |s| then
      if size >= HUGE then ChunkThrow
      else ReadChunks(content + s[..size], INVALID, s[size + 2..])
    else if size > |s| then ChunkMore(content + s, size - |s|, "")
    else ChunkMore(content, size, s)
  }

  // ---------------------------------------------------------------- multipart body

  datatype Part = Part(name: string, fileName: string, data: string)

  datatype Step = Start | BoundaryParsed | HeadersParsed | Ended

  /** step_, part_ and form_parts_. */
  datatype Multipart = Multipart(step: Step, part: Option<Part>, parts: seq<Part>) {
    ghost predicate Valid() {
      step == HeadersParsed ==> part.Some?
    }
  }

  const NEW_MULTIPART := Multipart(Start, None, [])

  /** strncmp(a, b, n) == 0: equal up to n characters or up to a common NUL. */
  predicate SameChars(a: string, b: string, n: nat)
    requires n <= |a| && n <= |b|
  {
    n == 0 || (a[0] == b[0] && (a[0] == '\0' || SameChars(a[1..], b[1..], n - 1)))
  }

  /** A line as long as an end boundary with the dashes of one; IsBoundary sets `*end` for it before
      it compares the text in between. */
  predicate DashLine(boundary: string, line: string) {
    && |line| == |boundary| + 4
    && line[0] == '-' && line[1] == '-'
    && line[|line| - 1] == '-' && line[|line| - 2] == '-'
  }

  /** The result of IsBoundary. */
  predicate IsBoundary(boundary: string, line: string) {
    && (DashLine(boundary, line) || (|line| == |boundary| + 2 && line[0] == '-' && line[1] == '-'))
    && SameChars(boundary, line[2..], |boundary|)
  }

  datatype BoundaryLine = BoundaryLine(off: nat, count: nat, ended: bool)

  /** GetNextBoundaryLine, scanning from `off`; `ended` collects what IsBoundary stored so far. */
  function NextBoundary(boundary: string, s: string, off: nat, ended: bool): (r: Option<BoundaryLine>)
    requires off <= |s|
    ensures r.Some? ==> off <= r.value.off && r.value.off + r.value.count + 2 <= |s|
    decreases |s| - off
  {
    match FindCrlf(s, off)
    case None => None
    case Some(pos) =>
      var line := s[off..pos];
      if line == "" then NextBoundary(boundary, s, pos + 2, ended)
      else if IsBoundary(boundary, line) then
        Some(BoundaryLine(off, pos - off, ended || DashLine(boundary, line)))
      else NextBoundary(boundary, s, pos + 2, ended || DashLine(boundary, line))
  }

  /** The outcome of ParsePartHeaders: the last Content-Disposition seen, if any, and the bytes after the headers. */
  datatype PartResult = PartMore(d: Option<Disposition>) | PartBad | PartDone(d: Option<Disposition>, rest: string)

  /** One part header line: the new disposition, or None for a line ParsePartHeaders rejects. */
  function OnPartLine(d: Option<Disposition>, line: string): Option<Option<Disposition>>
  {
    match SplitKv(line, ':')
    case None => None
    case Some(kv) =>
      if !IEquals(kv.key, CONTENT_DISPOSITION) then Some(d)
      else
        match ParseDisposition(kv.value)
        case None => None
        case Some(e) => Some(Some(e))
  }

  function ReadPartHeaders(d: Option<Disposition>, s: string): PartResult
    decreases |s|
  {
    match NextLine(s)
    case None => PartMore(d)
    case Some(l) =>
      if l.text == "" then PartDone(d, l.rest)
      else
        match OnPartLine(d, l.text)
        case None => PartBad
        case Some(e) => ReadPartHeaders(e, l.rest)
  }

  lemma {:induction false} PartHeadersShrink(d: Option<Disposition>, s: string)
    ensures ReadPartHeaders(d, s).PartDone? ==> |ReadPartHeaders(d, s).rest| < |s|
    decreases |s|
  {
    if NextLine(s).Some? {
      var l := NextLine(s).value;
      if l.text != "" && OnPartLine(d, l.text).Some? {
        PartHeadersShrink(OnPartLine(d, l.text).value, l.rest);
      }
    }
  }

  function Described(p: Part, d: Option<Disposition>): Part {
    if d.None? then p else p.(name := d.value.name, fileName := d.value.fileName)
  }

  function PartOrNew(p: Option<Part>): Part {
    if p.None? then Part("", "", "") else p.value
  }

  /** The current part, created if there is none, takes over the name and file name. */
  function DescribedBy(m: Multipart, d: Option<Disposition>): Multipart {
    m.(part := Some(Described(PartOrNew(m.part), d)))
  }

  datatype MultipartResult =
    | PartsMore(m: Multipart, pending: string)
    | PartsEnded(m: Multipart, pending: string)
    | PartsBad
    | PartsHang

  /** The loop of ParseMultipartContent. No branch handles bytes that follow the end boundary, so the loop
      never leaves the state in which step_ is kEnded and bytes are pending on entry. */
  function ReadParts(boundary: string, m: Multipart, s: string): MultipartResult
    requires m.Valid()
    decreases |s|
  {
    if s == "" then PartsMore(m, s)
    else
      match m.step
      case Start =>
        (match NextLine(s)
         case None => PartsMore(m, s)
         case Some(l) =>
           if IsBoundary(boundary, l.text) then ReadParts(boundary, m.(step := BoundaryParsed), l.rest)
           else PartsBad)
      case BoundaryParsed =>
        PartHeadersShrink(None, s);
        (match ReadPartHeaders(None, s)
         case PartMore(d) => PartsMore(DescribedBy(m, d), s)
         case PartBad => PartsBad
         case PartDone(d, rest) => ReadParts(boundary, DescribedBy(m, d).(step := HeadersParsed), rest))
      case HeadersParsed =>
        (match NextBoundary(boundary, s, 0, false)
         case None => PartsMore(m, s)
         case Some(b) =>
           if b.off <= 2 then PartsBad
           else
             var n := NextPart(m, s[..b.off - 2]);
             var rest := s[b.off + b.count + 2..];
             if b.ended then PartsEnded(n.(step := Ended), rest) else ReadParts(boundary, n, rest))
      case Ended => PartsHang
  }

  /** The current part takes its data and is saved; the next one starts. */
  function NextPart(m: Multipart, data: string): Multipart
    requires m.part.Some?
  {
    var p := m.part.value;
    Multipart(BoundaryParsed, None, m.parts + [p.(data := p.data + data)])
  }

  // ---------------------------------------------------------------- the whole parser

  datatype Body = NoBody | StringContent(data: string) | FormContent(parts: seq<Part>, boundary: string)

  /** The parser's fields and the body of the message being filled in. */
  datatype State = State(
    head: Head, headEnded: bool, pending: string, content: string, chunkSize: nat,
    multipart: Multipart, body: Body, finished: bool)
  {
    ghost predicate Valid() {
      multipart.Valid() && chunkSize < W
    }
  }

  /** A newly constructed parser after Init. */
  const NEW_STATE := State(NEW_HEAD, false, "", "", INVALID, NEW_MULTIPART, NoBody, false)

  /** What Parse reports for one read: an error, std::length_error, no return at all, or the next state. */
  datatype Outcome = Fail | Throw | Hang | Ok(s: State)

  /** Finish: a non-empty content becomes the body of the message. */
  function Finish(s: State): State {
    s.(finished := true, body := if s.content == "" then s.body else StringContent(s.content), content := "")
  }

  function FeedFixed(s: State, data: string): Outcome
  {
    if !s.head.contentLengthParsed then Ok(Finish(s))
    else if s.head.contentLength == INVALID then Fail
    else
      var t := s.(content := s.content + s.pending + data, pending := "");
      Ok(if |t.content| >= s.head.contentLength then Finish(t) else t)
  }

  function FeedChunked(s: State, data: string): Outcome
    requires s.Valid()
  {
    match ReadChunks(s.content, s.chunkSize, s.pending + data)
    case ChunkMore(c, n, p) => Ok(s.(content := c, chunkSize := n, pending := p))
    case ChunkDone(c, p) => Ok(Finish(s.(content := c, chunkSize := 0, pending := p)))
    case ChunkBad => Fail
    case ChunkThrow => Throw
  }

  predicate LengthKnown(h: Head) {
    h.contentLengthParsed && h.contentLength != INVALID
  }

  function FeedMultipart(s: State, data: string): Outcome
    requires s.Valid()
  {
    var boundary := s.head.contentType.additional;
    if !LengthKnown(s.head) then Fail
    else
      match ReadParts(boundary, s.multipart, s.pending + data)
      case PartsMore(m, p) =>
        var t := s.(multipart := m, pending := p);
        Ok(if m.step == Ended then Finish(t.(body := FormContent(m.parts, boundary))) else t)
      case PartsEnded(m, p) =>
        Ok(Finish(s.(multipart := m, pending := p, body := FormContent(m.parts, boundary))))
      case PartsBad => Fail
      case PartsHang => Hang
  }

  /** RequestParser::ParseContent. */
  function FeedContent(s: State, data: string): Outcome
    requires s.Valid()
  {
    if s.head.chunked then FeedChunked(s, data)
    else if s.head.contentType.multipart then FeedMultipart(s, data)
    else FeedFixed(s, data)
  }

  /** The view matcher: does any view or static file accept this method and path? */
  type Matcher = (string, string) -> bool

  /** Parser::Parse. */
  function Feed(matches: Matcher, s: State, data: string): Outcome
    requires s.Valid()
  {
    if s.headEnded then FeedContent(s, data)
    else
      match ReadHead(s.head, s.pending + data)
      case HeadBad => Fail
      case HeadMore(h, p) => Ok(s.(head := h, pending := p))
      case HeadEnded(h, rest) =>
        if !matches(h.verb, h.url.path) then Fail
        else FeedContent(s.(head := h, headEnded := true, pending := rest), "")
  }

  // ---------------------------------------------------------------- runs over reads

  /** The message a finished parser has filled in. */
  datatype Message = Message(
    startLine: string, verb: string, url: Url, headers: seq<Header>, contentLength: nat, body: Body)

  datatype Verdict = Failed | Threw | Hung | Waiting | Complete(message: Message)

  function MessageOf(h: Head, body: Body): Message {
    Message(h.startLine, h.verb, h.url, h.headers, h.contentLength, body)
  }

  lemma FeedKeepsValid(matches: Matcher, s: State, data: string)
    requires s.Valid()
    ensures Feed(matches, s, data).Ok? ==> Feed(matches, s, data).s.Valid()
  {
    var t := if s.headEnded then s else
               match ReadHead(s.head, s.pending + data)
               case HeadEnded(h, rest) => s.(head := h, headEnded := true, pending := rest)
               case _ => s;
    var d := if s.headEnded then data else "";
    ChunksKeepSize(t.content, t.chunkSize, t.pending + d);
    PartsKeepValid(t.head.contentType.additional, t.multipart, t.pending + d);
  }

  /** With no size yet, a size line is taken first. */
  lemma ReadLine(content: string, s: string)
    ensures ReadChunks(content, INVALID, s) ==
            match NextLine(s)
            case None => ReadChunk(content, INVALID, s)
            case Some(l) =>
              match SizeOf(l.text)
              case None => ChunkBad
              case Some(n) => ReadChunk(content, n, l.rest)
  {
    hide ReadChunk, NextLine, ToSize;
  }

  lemma ReadSized(content: string, size: nat, s: string)
    requires size < W && size != INVALID
    ensures ReadChunks(content, size, s) == ReadChunk(content, size, s)
  {
    hide ReadChunk;
  }

  /** A turn of the loop for an open chunk. */
  lemma ChunkStep(content: string, size: nat, s: string)
    requires 0 < size < W
    ensures ReadChunk(content, size, s) ==
            if (size + 2) % W <= |s| then
              if size >= HUGE then ChunkThrow else ReadChunks(content + s[..size], INVALID, s[size + 2..])
            else if size > |s| then ChunkMore(content + s, size - |s|, "")
            else ChunkMore(content, size, s)
  {
    hide ReadChunks;
  }

  /** No size an open chunk has is an end of the body: the chunk is left open, or the loop goes on behind it. */
  lemma OpenChunk(content: string, size: nat, s: string)
    requires 0 < size < W
    ensures var r := ReadChunk(content, size, s);
            || (r.ChunkMore? && 0 < r.size < W)
            || r.ChunkThrow?
            || (size + 2 <= |s| && r == ReadChunks(content + s[..size], INVALID, s[size + 2..]))
  {
    hide ReadChunks;
  }

  lemma {:induction false} ChunksKeepSize(content: string, size: nat, s: string)
    requires size < W
    ensures var r := ReadChunks(content, size, s); r.ChunkMore? ==> r.size < W
    decreases |s|, 1
  {
    hide ReadChunks, ReadChunk, NextLine, SizeOf;
    if size != INVALID {
      ReadSized(content, size, s);
      ChunkKeepsSize(content, size, s);
    } else {
      ReadLine(content, s);
      match NextLine(s)
      case None => ChunkKeepsSize(content, INVALID, s);
      case Some(l) =>
        if SizeOf(l.text).Some? {
          SizeOfBounded(l.text);
          ChunkKeepsSize(content, SizeOf(l.text).value, l.rest);
        }
    }
  }

  lemma SizeOfBounded(line: string)
    ensures SizeOf(line).Some? ==> SizeOf(line).value < W
  {
  }

  lemma {:induction false} ChunkKeepsSize(content: string, size: nat, s: string)
    requires size < W
    ensures var r := ReadChunk(content, size, s); r.ChunkMore? ==> r.size < W
    decreases |s|, 0
  {
    if size == 0 {
      assert ReadChunk(content, size, s).ChunkDone?;
    } else {
      hide ReadChunks, ReadChunk;
      OpenChunk(content, size, s);
      if size + 2 <= |s| {
        ChunksKeepSize(content + s[..size], INVALID, s[size + 2..]);
      }
    }
  }

  lemma NoParts(boundary: string, m: Multipart)
    requires m.Valid()
    ensures ReadParts(boundary, m, "") == PartsMore(m, "")
  {
  }

  lemma StartStep(boundary: string, m: Multipart, s: string)
    requires m.step == Start && s != ""
    ensures ReadParts(boundary, m, s) ==
            match NextLine(s)
            case None => PartsMore(m, s)
            case Some(l) =>
              if IsBoundary(boundary, l.text) then ReadParts(boundary, m.(step := BoundaryParsed), l.rest) else PartsBad
  {
    hide NextBoundary, ReadPartHeaders, IsBoundary, NextLine;
  }

  lemma HeadersStep(boundary: string, m: Multipart, s: string)
    requires m.step == BoundaryParsed && s != ""
    ensures var r := ReadPartHeaders(None, s);
            && (r.PartMore? ==> ReadParts(boundary, m, s) == PartsMore(DescribedBy(m, r.d), s))
            && (r.PartBad? ==> ReadParts(boundary, m, s) == PartsBad)
            && (r.PartDone? ==>
                  ReadParts(boundary, m, s) == ReadParts(boundary, DescribedBy(m, r.d).(step := HeadersParsed), r.rest))
  {
    hide NextBoundary, ReadPartHeaders, IsBoundary, NextLine;
    PartHeadersShrink(None, s);
  }

  lemma {:induction false} DataStep(boundary: string, m: Multipart, s: string, l: BoundaryLine)
    requires m.Valid() && m.step == HeadersParsed && s != ""
    requires NextBoundary(boundary, s, 0, false) == Some(l)
    ensures ReadParts(boundary, m, s) ==
            if l.off <= 2 then PartsBad
            else if l.ended then PartsEnded(NextPart(m, s[..l.off - 2]).(step := Ended), s[l.off + l.count + 2..])
            else ReadParts(boundary, NextPart(m, s[..l.off - 2]), s[l.off + l.count + 2..])
  {
    hide NextBoundary, ReadPartHeaders, IsBoundary, NextLine;
  }

  lemma DataWaits(boundary: string, m: Multipart, s: string)
    requires m.Valid() && m.step == HeadersParsed && s != ""
    requires NextBoundary(boundary, s, 0, false).None?
    ensures ReadParts(boundary, m, s) == PartsMore(m, s)
  {
    hide NextBoundary, ReadPartHeaders, IsBoundary, NextLine;
  }

  lemma Stuck(boundary: string, m: Multipart, s: string)
    requires m.step == Ended && s != ""
    ensures ReadParts(boundary, m, s) == PartsHang
  {
  }

  /** The loop keeps step_ and part_ in agreement. Unless it starts in the last step it never gets stuck, and
      only its end-boundary branch reaches that step. */
  lemma {:induction false} PartsKeepValid(boundary: string, m: Multipart, s: string)
    requires m.Valid()
    ensures var r := ReadParts(boundary, m, s); r.PartsMore? || r.PartsEnded? ==> r.m.Valid()
    ensures m.step != Ended ==>
              var r := ReadParts(boundary, m, s);
              !r.PartsHang? && (r.PartsMore? ==> r.m.step != Ended) && (r.PartsEnded? ==> r.m.step == Ended)
    decreases |s|
  {
    hide ReadParts, ReadPartHeaders, NextBoundary, IsBoundary, NextLine;
    if s == "" {
      NoParts(boundary, m);
    } else {
      match m.step
      case Start =>
        StartStep(boundary, m, s);
        if NextLine(s).Some? && IsBoundary(boundary, NextLine(s).value.text) {
          PartsKeepValid(boundary, m.(step := BoundaryParsed), NextLine(s).value.rest);
        }
      case BoundaryParsed =>
        HeadersStep(boundary, m, s);
        PartHeadersShrink(None, s);
        match ReadPartHeaders(None, s) {
          case PartDone(d, rest) =>
            PartsKeepValid(boundary, DescribedBy(m, d).(step := HeadersParsed), rest);
          case _ =>
        }
      case HeadersParsed =>
        match NextBoundary(boundary, s, 0, false) {
          case Some(l) =>
            DataStep(boundary, m, s, l);
            if l.off > 2 && !l.ended {
              PartsKeepValid(boundary, NextPart(m, s[..l.off - 2]), s[l.off + l.count + 2..]);
            }
          case None => DataWaits(boundary, m, s);
        }
      case Ended => Stuck(boundary, m, s);
    }
  }

  /** Parts that have been collected are never changed: the list only grows. */
  lemma {:induction false} PartsGrow(boundary: string, m: Multipart, s: string)
    requires m.Valid()
    ensures var r := ReadParts(boundary, m, s); r.PartsMore? || r.PartsEnded? ==> m.parts <= r.m.parts
    decreases |s|
  {
    hide ReadParts, ReadPartHeaders, NextBoundary, IsBoundary, NextLine;
    if s == "" {
      NoParts(boundary, m);
    } else {
      match m.step
      case Start =>
        StartStep(boundary, m, s);
        if NextLine(s).Some? && IsBoundary(boundary, NextLine(s).value.text) {
          PartsGrow(boundary, m.(step := BoundaryParsed), NextLine(s).value.rest);
        }
      case BoundaryParsed =>
        HeadersStep(boundary, m, s);
        PartHeadersShrink(None, s);
        match ReadPartHeaders(None, s) {
          case PartDone(d, rest) => PartsGrow(boundary, DescribedBy(m, d).(step := HeadersParsed), rest);
          case _ =>
        }
      case HeadersParsed =>
        match NextBoundary(boundary, s, 0, false) {
          case Some(l) =>
            DataStep(boundary, m, s, l);
            if l.off > 2 && !l.ended {
              PartsGrow(boundary, NextPart(m, s[..l.off - 2]), s[l.off + l.count + 2..]);
            }
          case None => DataWaits(boundary, m, s);
        }
      case Ended => Stuck(boundary, m, s);
    }
  }

  /** Feeding the pieces one by one until the parser has an answer, as Connection::OnRead does. */
  function Run(matches: Matcher, s: State, pieces: seq<string>): Verdict
    requires s.Valid()
    decreases |pieces|
  {
    if pieces == [] then Waiting
    else
      FeedKeepsValid(matches, s, pieces[0]);
      match Feed(matches, s, pieces[0])
      case Fail => Failed
      case Throw => Threw
      case Hang => Hung
      case Ok(t) => if t.finished then Complete(MessageOf(t.head, t.body)) else Run(matches, t, pieces[1..])
  }

  function Concat(pieces: seq<string>): string {
    if pieces == [] then "" else pieces[0] + Concat(pieces[1..])
  }

  lemma OnePiece(x: string)
    ensures Concat([x]) == x
  {
    assert [x][1..] == [];
    assert x + "" == x;
  }
}
