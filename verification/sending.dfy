/** From the request a client prepares to the message a server receives (webcc/request_builder.cc,
    webcc/request.cc, webcc/message.cc, webcc/parser.cc). */
module Sending {
  import opened Text
  import opened Headers
  import opened Urls
  import opened Parsing
  import opened Cuts
  import opened Reference
  import opened Form
  import opened Printing
  import opened RoundTrip
  import opened Requests

  // ---------------------------------------------------------------- headers that are set

  lemma {:induction false} SpellingKept(old_: string, key: string, value: string)
    requires NoCrlf(old_ + ": ") && NoCrlf(HeaderLine(Header(key, value)))
    ensures NoCrlf(HeaderLine(Header(old_, value)))
  {
    var line := HeaderLine(Header(old_, value));
    var n, m := |old_| + 2, |key| + 2;
    forall k ensures !CrlfAt(line, k) {
      if k + 1 < n {
        assert CrlfAt(line, k) ==> CrlfAt(old_ + ": ", k);
      } else if k >= n {
        assert CrlfAt(line, k) ==> CrlfAt(HeaderLine(Header(key, value)), k - n + m);
      }
    }
  }

  lemma NoCrlfFront(h: Header)
    requires NoCrlf(HeaderLine(h))
    ensures NoCrlf(h.key + ": ")
  {
    forall k ensures !CrlfAt(h.key + ": ", k) {
      assert CrlfAt(h.key + ": ", k) ==> CrlfAt(HeaderLine(h), k);
    }
  }

  /** Setting a header that can be printed and parsed keeps the list such. */
  lemma {:induction false} SetKeepsSound(hs: seq<Header>, h: Header)
    requires Sound(hs) && Printable(h) && Acceptable(h)
    ensures Sound(AfterSet(hs, h.key, h.value))
  {
    hide HeaderLine, NoCrlf;
    SetKeepsWellFormed(hs, h.key, h.value);
    var i := FindKey(hs, h.key);
    if i < |hs| {
      NoCrlfFront(hs[i]);
      SpellingKept(hs[i].key, h.key, h.value);
      SameKind(hs[i].key, h);
    }
  }

  lemma SameKind(key: string, h: Header)
    requires IEquals(key, h.key) && Acceptable(h)
    ensures Acceptable(Header(key, h.value))
  {
  }

  lemma {:induction false} LookupSet(hs: seq<Header>, key: string, value: string, other: string)
    requires WellFormed(hs) && value != ""
    ensures Lookup(AfterSet(hs, key, value), other) == if IEquals(key, other) then Some(value) else Lookup(hs, other)
  {
    SetThenFind(hs, key, value, other);
  }

  // ---------------------------------------------------------------- prepared requests

  /** A request as its sender fills it in; `host` is the value of the Host header. */
  datatype Outgoing = Outgoing(verb: string, path: string, query: string, host: string, headers: seq<Header>)

  /** What the sender must see to, apart from the body and from a request line that can be read. */
  ghost predicate Proper(r: Outgoing) {
    && NoCrlf(RequestLine(r.verb, r.path, r.query))
    && Sound(r.headers) && Printable(Header(HOST, r.host))
    && Lookup(r.headers, TRANSFER_ENCODING) != Some("chunked")
  }

  function LineOf(r: Outgoing): string {
    RequestLine(r.verb, r.path, r.query)
  }

  function UrlOf(r: Outgoing): Url {
    Url("", "", "", r.path, r.query)
  }

  lemma OtherKeys()
    ensures !IEquals(HOST, CONTENT_LENGTH) && !IEquals(HOST, CONTENT_TYPE) && !IEquals(HOST, TRANSFER_ENCODING)
    ensures !IEquals(CONTENT_LENGTH, CONTENT_TYPE) && !IEquals(CONTENT_LENGTH, TRANSFER_ENCODING)
    ensures !IEquals(CONTENT_TYPE, TRANSFER_ENCODING) && !IEquals(CONTENT_TYPE, CONTENT_LENGTH)
    ensures IEquals(CONTENT_LENGTH, CONTENT_LENGTH) && IEquals(CONTENT_TYPE, CONTENT_TYPE)
  {
    assert |HOST| == 4 && |CONTENT_LENGTH| == 14 && |CONTENT_TYPE| == 12 && |TRANSFER_ENCODING| == 17;
  }

  lemma {:induction false} LengthLine(n: nat)
    requires n < W
    ensures NoCrlf(HeaderLine(Header(CONTENT_LENGTH, ToDigits(n, Dec))))
    ensures Trimmed(ToDigits(n, Dec))
  {
    hide ToDigits;
    var s := ToDigits(n, Dec);
    var left := CONTENT_LENGTH + ": ";
    DigitsArePlain(n, Dec);
    assert s[0] in s && s[|s| - 1] in s;
    forall k ensures !CrlfAt(s, k) {
      if 0 <= k < |s| {
        assert s[k] in s;
      }
    }
    assert NoCrlf(left) && left[|left| - 1] == ' ';
    NoCrlfAround(left, s, "");
    assert left + s + "" == HeaderLine(Header(CONTENT_LENGTH, s));
  }

  lemma {:induction false} LengthPrintable(n: nat)
    requires n < W
    ensures Printable(Header(CONTENT_LENGTH, ToDigits(n, Dec))) && Acceptable(Header(CONTENT_LENGTH, ToDigits(n, Dec)))
  {
    hide ToDigits, ToSize, ParseContentType, HeaderLine, NoCrlf, IEquals;
    AcceptableIs(Header(CONTENT_LENGTH, ToDigits(n, Dec)));
    LengthLine(n);
    SizeRoundTrip(n, Dec);
    OtherKeys();
    assert ':' !in CONTENT_LENGTH && Trimmed(CONTENT_LENGTH);
  }

  lemma HostAcceptable(host: string)
    ensures Acceptable(Header(HOST, host))
  {
    OtherKeys();
  }

  /** The headers after SetBody, if there is a body, and Prepare. */
  function PreparedHeaders(r: Outgoing, size: Option<nat>): seq<Header> {
    var hs := if size.None? then r.headers else AfterSet(r.headers, CONTENT_LENGTH, ToDigits(size.value, Dec));
    AfterSet(hs, HOST, r.host)
  }

  lemma {:induction false} PreparedSound(r: Outgoing, size: Option<nat>)
    requires Sound(r.headers) && Printable(Header(HOST, r.host))
    requires size.Some? ==> size.value < W
    ensures var hs := PreparedHeaders(r, size);
            && Sound(hs)
            && Lookup(hs, TRANSFER_ENCODING) == Lookup(r.headers, TRANSFER_ENCODING)
            && Lookup(hs, CONTENT_TYPE) == Lookup(r.headers, CONTENT_TYPE)
            && Lookup(hs, CONTENT_LENGTH) ==
               if size.None? then Lookup(r.headers, CONTENT_LENGTH) else Some(ToDigits(size.value, Dec))
  {
    hide Lookup, AfterSet, Printable, Acceptable, IEquals, ToDigits;
    OtherKeys();
    HostAcceptable(r.host);
    var hs := r.headers;
    if size.Some? {
      var v := ToDigits(size.value, Dec);
      LengthPrintable(size.value);
      SetKeepsSound(hs, Header(CONTENT_LENGTH, v));
      assert v != "";
      LookupSet(hs, CONTENT_LENGTH, v, TRANSFER_ENCODING);
      LookupSet(hs, CONTENT_LENGTH, v, CONTENT_TYPE);
      LookupSet(hs, CONTENT_LENGTH, v, CONTENT_LENGTH);
      hs := AfterSet(hs, CONTENT_LENGTH, v);
    }
    SetKeepsSound(hs, Header(HOST, r.host));
    HostNotEmpty(r.host);
    LookupSet(hs, HOST, r.host, TRANSFER_ENCODING);
    LookupSet(hs, HOST, r.host, CONTENT_TYPE);
    LookupSet(hs, HOST, r.host, CONTENT_LENGTH);
  }

  lemma HostNotEmpty(host: string)
    requires Printable(Header(HOST, host))
    ensures host != ""
  {
  }

  /** The size of the body that is set, if one is. */
  function SizeSet(body: Option<string>): Option<nat> {
    if body.None? then None else Some(|body.value|)
  }

  function BytesOf(body: Option<string>): string {
    if body.None? then "" else body.value
  }

  /** The bytes of a request, with the size announced for its body. */
  function Sent(r: Outgoing, size: Option<nat>, body: string): string {
    HeadBytes(LineOf(r), PreparedHeaders(r, size)) + body
  }

  /** What the receiver should end up with. */
  function Expected(r: Outgoing, size: Option<nat>, received: Body): Verdict {
    Complete(Message(LineOf(r), r.verb, UrlOf(r), PreparedHeaders(r, size),
                     if size.None? then INVALID else size.value, received))
  }

  /** Nothing is announced that is not sent: a length set beforehand is replaced by that of the body, if there is
      one. */
  ghost predicate PlainBody(r: Outgoing, body: Option<string>) {
    && (body.None? ==> Lookup(r.headers, CONTENT_LENGTH).None?)
    && (Lookup(r.headers, CONTENT_TYPE).Some? ==>
          MediaOf(Lookup(r.headers, CONTENT_TYPE).value) != "multipart/form-data")
    && |BytesOf(body)| < INVALID
  }

  lemma LineNotEmpty(r: Outgoing)
    ensures LineOf(r) != ""
  {
  }

  /** A request line that is not read as it was meant makes another message of the request, or none, under every cut. */
  lemma {:induction false} Misread(
    matches: Matcher, line: string, verb: string, url: Url, hs: seq<Header>, body: string, v: Verdict)
    requires line != "" && NoCrlf(line) && Sound(hs) && Lookup(hs, TRANSFER_ENCODING) != Some("chunked")
    requires FixedMode(HeadWith(NEW_HEAD, hs)) ==> |body| <= HeadWith(NEW_HEAD, hs).contentLength
    requires OnStartLine(NEW_HEAD, line) != Some(Started(line, verb, url))
    requires v.Complete? && v.message.verb == verb && v.message.url == url
    ensures AnsweredOtherwise(matches, HeadBytes(line, hs) + body, v)
  {
    hide Run, ReadHead, HeadBytes, Sound, NoCrlf, OnStartLine, Lookup;
    var head := HeadBytes(line, hs);
    match OnStartLine(NEW_HEAD, line)
    case None =>
      BadLine(line, hs, body);
      NoHeadNoBadReads(matches, head + body);
    case Some(g) =>
      LineRead(line);
      assert head + "" == head;
      HeadRoundTrip(line, g.verb, g.url, hs, "");
      HeadRoundTrip(line, g.verb, g.url, hs, body);
      AllGood(matches, head, HeadWith(g, hs), body);
  }

  lemma LineRead(line: string)
    ensures var g := OnStartLine(NEW_HEAD, line); g.Some? ==> g.value == Started(line, g.value.verb, g.value.url)
  {
    hide SplitAll, ParseUrl;
  }

  lemma {:induction false} BadLine(line: string, hs: seq<Header>, body: string)
    requires line != "" && NoCrlf(line) && OnStartLine(NEW_HEAD, line).None?
    ensures ReadHead(NEW_HEAD, HeadBytes(line, hs) + body) == HeadBad
  {
    hide OnStartLine, NextLine, NoCrlf;
    var tail := HeaderBytes(hs) + CRLF + body;
    assert HeadBytes(line, hs) + body == line + CRLF + tail;
    NextLineOf(line, tail);
    FirstLine(line, tail);
  }

  lemma {:induction false} FirstLine(line: string, tail: string)
    requires line != "" && NextLine(line + CRLF + tail) == Some(Line(line, tail)) && OnStartLine(NEW_HEAD, line).None?
    ensures ReadHead(NEW_HEAD, line + CRLF + tail) == HeadBad
  {
    hide NextLine, OnStartLine;
  }

  lemma {:induction false} NoHeadNoBadReads(matches: Matcher, x: string)
    requires ReadHead(NEW_HEAD, x) == HeadBad
    ensures forall pieces :: Concat(pieces) == x ==> Run(matches, NEW_STATE, pieces) == Answer(matches, x)
  {
    hide ReadHead, Run, GoodReads;
    forall pieces | Concat(pieces) == x ensures Run(matches, NEW_STATE, pieces) == Answer(matches, x) {
      assert "" + Concat(pieces) == x;
      NoHeadIsGood(matches, "", pieces);
      RunMeetsReference(matches, pieces);
    }
  }

  lemma {:induction false} NoHeadIsGood(matches: Matcher, x: string, pieces: seq<string>)
    requires ReadHead(NEW_HEAD, x + Concat(pieces)) == HeadBad
    ensures GoodReads(matches, x, pieces)
    decreases |pieces|
  {
    hide ReadHead;
    if pieces != [] {
      var y := x + pieces[0];
      assert y + Concat(pieces[1..]) == x + Concat(pieces);
      HeadExtend(NEW_HEAD, y, Concat(pieces[1..]));
      NoHeadIsGood(matches, y, pieces[1..]);
    }
  }

  /** A prepared request with a text body, or none, reaches the receiver under every cut, on its last byte and
      not before, with the same method, path, query, headers in order, and body, if its request line is readable, and
      under no cut otherwise. */
  lemma {:induction false} PreparedRequestRoundTrip(matches: Matcher, r: Outgoing, body: Option<string>)
    requires Proper(r) && PlainBody(r, body) && matches(r.verb, r.path)
    ensures var x := Sent(r, SizeSet(body), BytesOf(body));
            var v := Expected(r, SizeSet(body), TextBody(BytesOf(body)));
            if ReadableLine(r.verb, r.path, r.query) then AnsweredAtEnd(matches, x, v)
            else AnsweredOtherwise(matches, x, v)
  {
    hide Lookup, PreparedHeaders, OnStartLine, AnsweredAtEnd, AnsweredOtherwise, ToDigits, HeadBytes, RequestLine,
         ReadableLine;
    var hs := PreparedHeaders(r, SizeSet(body));
    PreparedSound(r, SizeSet(body));
    LineNotEmpty(r);
    RequestLineRoundTrip(r.verb, r.path, r.query);
    if ReadableLine(r.verb, r.path, r.query) {
      RequestRoundTrip(matches, LineOf(r), r.verb, UrlOf(r), hs, BytesOf(body));
    } else {
      SizeRoundTrip(|BytesOf(body)|, Dec);
      Misread(matches, LineOf(r), r.verb, UrlOf(r), hs, BytesOf(body),
              Expected(r, SizeSet(body), TextBody(BytesOf(body))));
    }
  }

  // ---------------------------------------------------------------- prepared forms

  /** The request after the builder has set the content type of a form. */
  function WithFormType(r: Outgoing, boundary: string): Outgoing {
    r.(headers := AfterSet(r.headers, CONTENT_TYPE, FormContentType(boundary)))
  }

  lemma {:induction false} FormTypeSound(r: Outgoing, boundary: string)
    requires Proper(r) && boundary != "" && Trimmed(boundary) && NoCrlf(boundary)
    ensures Proper(WithFormType(r, boundary))
    ensures Lookup(WithFormType(r, boundary).headers, CONTENT_TYPE) == Some(FormContentType(boundary))
  {
    hide Sound, Lookup, RequestLine, NoCrlf, IEquals, AfterSet;
    var h := Header(CONTENT_TYPE, FormContentType(boundary));
    FormTypePrintable(boundary);
    OtherKeys();
    SetKeepsSound(r.headers, h);
    SoundIsWellFormed(r.headers);
    LookupSet(r.headers, h.key, h.value, TRANSFER_ENCODING);
    LookupSet(r.headers, h.key, h.value, CONTENT_TYPE);
  }

  lemma SoundIsWellFormed(hs: seq<Header>)
    requires Sound(hs)
    ensures WellFormed(hs)
  {
  }

  lemma {:induction false} FormTypePrintable(boundary: string)
    requires boundary != "" && Trimmed(boundary) && NoCrlf(boundary)
    ensures Printable(Header(CONTENT_TYPE, FormContentType(boundary)))
    ensures Acceptable(Header(CONTENT_TYPE, FormContentType(boundary)))
    ensures FormContentType(boundary) != ""
  {
    hide ParseContentType, HeaderLine, NoCrlf;
    AcceptableIs(Header(CONTENT_TYPE, FormContentType(boundary)));
    FormContentTypeRoundTrip(boundary);
    OtherKeys();
    FormTypeLine(boundary);
    var v := FormContentType(boundary);
    assert v[0] == 'm' && v[|v| - 1] == boundary[|boundary| - 1];
  }

  lemma {:induction false} FormTypeLine(boundary: string)
    requires NoCrlf(boundary)
    ensures NoCrlf(HeaderLine(Header(CONTENT_TYPE, FormContentType(boundary))))
  {
    var media := "multipart/form-data; boundary=";
    assert NoCrlf(media) && media[|media| - 1] == '=';
    NoCrlfAround(media, boundary, "");
    assert media + boundary + "" == FormContentType(boundary);
    HeaderIsOneLine(CONTENT_TYPE, FormContentType(boundary), "");
    LinesCoverText(HeaderLine(Header(CONTENT_TYPE, FormContentType(boundary))) + CRLF + "");
  }

  /** A prepared form request, with any announced length, reaches the receiver under every cut as the parts that were
      meant, in order, if its request line is readable, all its items are sendable and no data has been lost, and under
      no cut otherwise. */
  lemma {:induction false} PreparedFormRoundTrip(
    matches: Matcher, q: Outgoing, size: nat, boundary: string, items: seq<Item>, written: seq<Item>)
    requires Proper(q) && matches(q.verb, q.path)
    requires boundary != "" && Trimmed(boundary) && items != []
    requires Wellformed(boundary, items) && Emptied(items, written) && size < INVALID
    ensures var r := WithFormType(q, boundary);
            var x := Sent(r, Some(size), FormBytes(boundary, written));
            var v := Expected(r, Some(size), FormContent(Received(items), boundary));
            if ReadableLine(q.verb, q.path, q.query) && Sendable(boundary, items) && written == items
            then AnsweredAtEnd(matches, x, v) else AnsweredOtherwise(matches, x, v)
  {
    hide Lookup, PreparedHeaders, OnStartLine, AnsweredAtEnd, AnsweredOtherwise, ToDigits, HeadBytes, RequestLine,
         FormBytes, Sendable, ReadableLine, ParseContentType;
    var r := WithFormType(q, boundary);
    var bytes := FormBytes(boundary, written);
    var hs := PreparedHeaders(r, Some(size));
    FormTypeSound(q, boundary);
    PreparedSound(r, Some(size));
    LineNotEmpty(r);
    RequestLineRoundTrip(r.verb, r.path, r.query);
    if ReadableLine(r.verb, r.path, r.query) {
      FormRequestRoundTrip(matches, LineOf(r), r.verb, UrlOf(r), hs, size, boundary, items, written);
    } else {
      FormContentTypeRoundTrip(boundary);
      Misread(matches, LineOf(r), r.verb, UrlOf(r), hs, bytes,
              Expected(r, Some(size), FormContent(Received(items), boundary)));
    }
  }

  // ---------------------------------------------------------------- the premises can be met

  const PLAIN := Outgoing("GET", "/", "", "h", [])

  lemma PlainIsProper()
    ensures Proper(PLAIN) && PlainBody(PLAIN, Some("x")) && ReadableLine(PLAIN.verb, PLAIN.path, PLAIN.query)
  {
    hide MediaOf, RequestLine, ReadableLine, Printable;
    PlainLine();
    PlainHost();
    assert BytesOf(Some("x")) == "x";
  }

  lemma PlainLine()
    ensures NoCrlf(RequestLine("GET", "/", "")) && ReadableLine("GET", "/", "")
  {
    assert RequestLine("GET", "/", "") == "GET / HTTP/1.1";
    assert NoCrlf("GET / HTTP/1.1");
  }

  lemma PlainHost()
    ensures Printable(Header(HOST, "h"))
  {
    assert HeaderLine(Header(HOST, "h")) == "Host: h";
    assert NoCrlf("Host: h");
  }

  const CODED := Header(TRANSFER_ENCODING, "chunked")

  lemma CodedPrintable()
    ensures Printable(CODED) && Acceptable(CODED)
  {
    hide ToSize, ParseContentType, HeaderLine, NoCrlf, IEquals;
    CodedLine();
    OtherKeys();
    assert ':' !in TRANSFER_ENCODING && Trimmed(TRANSFER_ENCODING) && Trimmed("chunked");
  }

  lemma CodedLine()
    ensures NoCrlf(HeaderLine(CODED))
    ensures !IEquals(TRANSFER_ENCODING, CONTENT_LENGTH) && !IEquals(TRANSFER_ENCODING, CONTENT_TYPE)
  {
    var left := TRANSFER_ENCODING + ": ";
    assert NoCrlf(left) && NoCrlf("chunked") && left[|left| - 1] == ' ';
    NoCrlfAround(left, "chunked", "");
    assert left + "chunked" + "" == HeaderLine(CODED);
    assert |TRANSFER_ENCODING| == 17 && |CONTENT_LENGTH| == 14 && |CONTENT_TYPE| == 12;
  }

  lemma CodedSound()
    ensures Sound([CODED]) && Lookup([CODED], TRANSFER_ENCODING) == Some("chunked")
  {
    hide Printable, Acceptable;
    CodedPrintable();
    assert FindKey([CODED], TRANSFER_ENCODING) == 0;
  }

  /** A head that announces a chunked body. */
  lemma {:induction false} ChunkedHeadIsSound(matches: Matcher)
    requires matches("GET", "/")
    ensures SoundHead(matches, LineOf(PLAIN), "GET", UrlOf(PLAIN), [CODED])
    ensures Lookup([CODED], TRANSFER_ENCODING) == Some("chunked")
  {
    hide Sound, Lookup, OnStartLine, ReadableLine;
    PlainIsProper();
    RequestLineRoundTrip(PLAIN.verb, PLAIN.path, PLAIN.query);
    CodedSound();
    LineNotEmpty(PLAIN);
  }

  const JSON := Header(CONTENT_TYPE, "application/json")

  lemma JsonLine()
    ensures Printable(JSON)
  {
    var left := CONTENT_TYPE + ": ";
    assert NoCrlf(left) && NoCrlf(JSON.value) && left[|left| - 1] == ' ';
    NoCrlfAround(left, JSON.value, "");
    assert left + JSON.value + "" == HeaderLine(JSON);
    assert ':' !in CONTENT_TYPE && Trimmed(CONTENT_TYPE) && Trimmed(JSON.value);
  }

  lemma JsonMedia()
    ensures MediaOf(JSON.value) == "application/json"
  {
    hide MediaOf, ParseContentType;
    MediaRead("", "application/json", "", "");
    assert "" + "application/json" + "" + "" == JSON.value;
  }

  /** A request with a body of another media type. */
  lemma JsonIsPlain()
    ensures Sound([JSON]) && PlainBody(PLAIN.(headers := [JSON]), Some("{}"))
  {
    hide Printable, MediaOf;
    JsonLine();
    JsonMedia();
    OtherKeys();
    assert FindKey([JSON], CONTENT_TYPE) == 0;
    assert BytesOf(Some("{}")) == "{}";
  }

  /** A form with one part. */
  lemma ItemIsWellformed()
    ensures Wellformed("b", [Item("n", "", "", "x")]) && Sendable("b", [Item("n", "", "", "x")])
  {
    var t := "x" + CRLF;
    assert t == "x\r\n" && CrlfAt(t, 1) && !CrlfAt(t, 0);
    assert FindCrlf(t, 0) == Some(1);
    assert t[0..1] == "x";
    FindAtEnd(t);
    BoundaryScan("b", t, 0, false);
  }
}
