/** The calls a client makes to send a request, and a connection to receive one (webcc/request_builder.cc,
    webcc/client.cc, webcc/connection.cc). */
module Client {
  import opened Text
  import opened Headers
  import opened Urls
  import opened Parsing
  import opened Reference
  import opened Form
  import opened Printing
  import opened Requests
  import opened FormBodies
  import opened RoundTrip
  import opened Sending
  import opened Parser

  /** Everything is written, or Error(kFileError) or the error of Prepare has been thrown. */
  datatype SendStatus = Done | FileError | NoHost

  ghost function OutgoingOf(r: Request): Outgoing
    reads r
  {
    Outgoing(r.verb, r.url.path, r.url.query, Request.HostValue(r.url), r.headers)
  }

  /** What is common to all requests: Prepare, and the payload of the message itself. */
  method WriteHead(request: Request) returns (status: SendStatus, bytes: string)
    requires request.startLine == ""
    modifies request`startLine, request`headers
    ensures status == if request.url.host == "" then NoHost else Done
    ensures status == Done ==> bytes == HeadBytes(LineOf(old(OutgoingOf(request))),
                                                  AfterSet(old(request.headers), HOST, Request.HostValue(request.url)))
  {
    bytes := "";
    var prepared := request.Prepare();
    if prepared == HostMissing {
      return NoHost, bytes;
    }
    var payload := request.GetPayload();
    status, bytes := Done, Concat(payload);
  }

  /** The builder's last steps for a form: SetContentType, and SetBody with the size the body reports. */
  method SetForm(request: Request, form: FormBodies.FormBody, files: Files) returns (ok: bool)
    requires form.Valid() && form.parts != []
    modifies request`headers, request`body, request`contentLength, form.parts
    ensures form.Valid()
    ensures ok <==> forall j :: 0 <= j < |form.parts| ==> old(form.parts[j].data != "" || form.parts[j].path in files)
    ensures ItemsOf(form.parts, files) == old(ItemsOf(form.parts, files))
    ensures forall j :: 0 <= j < |form.parts| ==> form.parts[j].data == old(form.parts[j].data)
    ensures ok ==>
              && request.body.FormContent? && request.body.boundary == form.boundary
              && |request.body.parts| == |form.parts|
              && forall j :: 0 <= j < |form.parts| ==>
                   request.body.parts[j] == Part(form.parts[j].name, form.parts[j].fileName, form.parts[j].data)
    ensures ok ==>
              var size := |FormBytes(form.boundary, old(ItemsOf(form.parts, files)))|;
              && request.contentLength == size
              && request.headers
                 == AfterSet(AfterSet(old(request.headers), CONTENT_TYPE, FormContentType(form.boundary)),
                             CONTENT_LENGTH, ToDigits(size, Dec))
  {
    hide FormBytes, ItemsOf, FormContentType, ToDigits;
    request.SetHeader(CONTENT_TYPE, FormContentType(form.boundary));
    var size;
    ok, size := form.GetSize(files);
    if ok {
      request.SetBody(form.Held(), false, size, true);
    }
  }

  /** Some part has neither data nor a readable file. */
  ghost predicate Sizeless(form: FormBodies.FormBody, files: Files)
    reads form.parts
  {
    exists j :: 0 <= j < |form.parts| && form.parts[j].data == "" && form.parts[j].path !in files
  }

  /** A form: the builder sets type and body, the client prepares the request and writes message and body. The bytes
      written are as many as announced exactly when no part is lost by being freed before it is written again. */
  method SendForm(request: Request, form: FormBodies.FormBody, files: Files) returns (status: SendStatus, bytes: string)
    requires form.Valid() && form.parts != [] && request.startLine == ""
    modifies request, form`index, form.parts
    ensures var writable := forall j :: 0 <= j < |form.parts| ==> form.CanWrite(files, old(form.Data()), true, j);
            status == if old(Sizeless(form, files)) then FileError
                      else if request.url.host == "" then NoHost
                      else if !writable then FileError
                      else Done
    ensures status == Done ==>
              var declared := FormBytes(form.boundary, old(ItemsOf(form.parts, files)));
              var body := FormBytes(form.boundary, form.WrittenItems(files, old(form.Data()), true));
              && bytes == Sent(WithFormType(old(OutgoingOf(request)), form.boundary), Some(|declared|), body)
              && (form.AsLoaded(files, old(form.Data())) ==>
                    if form.NothingLost(files, old(form.Data()), true) then body == declared else |body| < |declared|)
  {
    hide FormBytes, ItemsOf, HeadBytes, FormContentType, AfterSet, ToDigits, RequestLine, Sizeless;
    hide FormBodies.FormBody.AsLoaded, FormBodies.FormBody.NothingLost, FormBodies.FormBody.WrittenItems,
         FormBodies.FormBody.CanWrite;
    ghost var was := form.Data();
    SizelessIs(form, files);
    bytes := "";
    var ok := SetForm(request, form, files);
    SameData(form, was);
    if !ok {
      return FileError, bytes;
    }
    status, bytes := WriteHead(request);
    if status != Done {
      return;
    }
    var out, calls;
    ghost var peak;
    ok, out, calls, peak := form.WriteAll(files, true);
    if !ok {
      return FileError, bytes;
    }
    bytes := bytes + out;
  }

  lemma SizelessIs(form: FormBodies.FormBody, files: Files)
    ensures Sizeless(form, files)
            <==> !(forall j :: 0 <= j < |form.parts| ==> form.parts[j].data != "" || form.parts[j].path in files)
  {
  }

  lemma SameData(form: FormBodies.FormBody, was: seq<string>)
    requires |was| == |form.parts| && forall j :: 0 <= j < |was| ==> form.parts[j].data == was[j]
    ensures form.Data() == was
  {
  }

  /** A string body, or none. */
  method SendText(request: Request, body: FormBodies.StringBody?) returns (status: SendStatus, bytes: string)
    requires request.startLine == ""
    modifies request, body
    ensures status == if request.url.host == "" then NoHost else Done
    ensures status == Done ==>
              bytes == if body == null then Sent(old(OutgoingOf(request)), None, "")
                       else Sent(old(OutgoingOf(request)), Some(|body.data|), body.data)
  {
    if body != null {
      var size := body.GetSize();
      request.SetBody(StringContent(body.data), false, size, true);
    }
    status, bytes := WriteHead(request);
    if status == Done && body != null {
      var out, calls := body.WriteAll();
      bytes := bytes + out;
    } else {
      assert bytes + "" == bytes;
    }
  }

  // ---------------------------------------------------------------- receiving

  /** What the calls of Parse have come to, against a verdict. */
  ghost predicate Reports(parser: RequestParser, status: Status, v: Verdict)
    reads parser, parser.request
  {
    match v
    case Failed => status == Bad
    case Threw => status == Thrown
    case Hung => false
    case Waiting => status == Good && !parser.finished
    case Complete(m) => status == Good && parser.finished
                        && MessageOf(parser.HeadNow(), parser.request.body) == m
                        && parser.request.contentLength == m.contentLength
  }

  /** Connection::OnRead, read after read, until the request is complete or there is an error. */
  method Receive(parser: RequestParser, pieces: seq<string>) returns (status: Status)
    requires parser.Model().Valid() && !parser.finished
    requires Run(parser.viewMatcher, parser.Model(), pieces) != Hung
    modifies parser, parser.request
    ensures parser.request == old(parser.request)
    ensures Reports(parser, status, Run(old(parser.viewMatcher), old(parser.Model()), pieces))
  {
    hide Feed, Run;
    ghost var v := Run(parser.viewMatcher, parser.Model(), pieces);
    var i := 0;
    status := Good;
    assert pieces[0..] == pieces;
    while i < |pieces|
      invariant i <= |pieces| && parser.request == old(parser.request) && parser.viewMatcher == old(parser.viewMatcher)
      invariant status == Good && parser.Model().Valid() && !parser.finished
      invariant Run(parser.viewMatcher, parser.Model(), pieces[i..]) == v
    {
      ghost var s := parser.Model();
      RunStep(parser.viewMatcher, s, pieces[i..]);
      FeedKeepsValid(parser.viewMatcher, s, pieces[i]);
      assert pieces[i..][1..] == pieces[i + 1..];
      status := parser.Parse(pieces[i]);
      if status != Good || parser.finished {
        return;
      }
      i := i + 1;
    }
    assert pieces[i..] == [];
    RunNothing(parser.viewMatcher, parser.Model());
  }

  lemma RunStep(matches: Matcher, s: State, pieces: seq<string>)
    requires s.Valid() && pieces != []
    ensures match Feed(matches, s, pieces[0])
            case Fail => Run(matches, s, pieces) == Failed
            case Throw => Run(matches, s, pieces) == Threw
            case Hang => Run(matches, s, pieces) == Hung
            case Ok(t) =>
              t.Valid() && Run(matches, s, pieces)
                           == if t.finished then Complete(MessageOf(t.head, t.body)) else Run(matches, t, pieces[1..])
  {
    hide Feed;
    FeedKeepsValid(matches, s, pieces[0]);
  }

  lemma RunNothing(matches: Matcher, s: State)
    requires s.Valid()
    ensures Run(matches, s, []) == Waiting
  {
  }

  // ---------------------------------------------------------------- both ends

  /** A form is sent, its bytes are cut into reads in any way, and a new parser on the other side is fed with them: the
      receiver ends up with the parts, under the method, path and query of the sender and with its headers, if and only
      if the request line is readable, the items are sendable and none is lost by being freed too early. */
  method ExchangeForm(
    request: Request, form: FormBodies.FormBody, files: Files, parser: RequestParser, cut: string -> seq<string>)
    returns (sent: SendStatus, received: Status)
    requires form.Valid() && form.parts != [] && request.startLine == "" && request != parser.request
    requires parser.Model() == NEW_STATE && forall x :: Concat(cut(x)) == x
    requires form.AsLoaded(files, form.Data())
    requires var r, items := OutgoingOf(request), ItemsOf(form.parts, files);
             && Proper(r) && parser.viewMatcher(r.verb, r.path)
             && form.boundary != "" && Trimmed(form.boundary) && Wellformed(form.boundary, items)
             && |FormBytes(form.boundary, items)| < INVALID
    modifies request, form`index, form.parts, parser, parser.request
    ensures sent == Done ==>
              var q, items := old(OutgoingOf(request)), old(ItemsOf(form.parts, files));
              var size := |FormBytes(form.boundary, items)|;
              var r := WithFormType(q, form.boundary);
              Reports(parser, received, Expected(r, Some(size), FormContent(Received(items), form.boundary)))
              <==> && ReadableLine(q.verb, q.path, q.query) && Sendable(form.boundary, items)
                   && form.NothingLost(files, old(form.Data()), true)
  {
    hide FormBytes, ItemsOf, Proper, Wellformed, ReadableLine, Sendable, Sent, Run, Concat, Emptied, Received,
         PreparedHeaders, AnsweredAtEnd, AnsweredOtherwise, Reports;
    hide FormBodies.FormBody.AsLoaded, FormBodies.FormBody.NothingLost, FormBodies.FormBody.WrittenItems;
    ghost var q, items := OutgoingOf(request), ItemsOf(form.parts, files);
    ghost var written := form.WrittenItems(files, form.Data(), true);
    form.ItemsAre(files);
    form.DeclaredOrLess(files, true);
    received := Good;
    var bytes;
    sent, bytes := SendForm(request, form, files);
    if sent == Done {
      ghost var size := |FormBytes(form.boundary, items)|;
      ghost var expected :=
        Expected(WithFormType(q, form.boundary), Some(size), FormContent(Received(items), form.boundary));
      PreparedFormRoundTrip(parser.viewMatcher, q, size, form.boundary, items, written);
      OneAnswer(parser.viewMatcher, bytes, cut(bytes), expected);
      received := Receive(parser, cut(bytes));
      OnlyOneReported(parser, received, Run(old(parser.viewMatcher), NEW_STATE, cut(bytes)), expected);
    }
  }

  lemma OneAnswer(matches: Matcher, x: string, pieces: seq<string>, v: Verdict)
    requires Concat(pieces) == x && v.Complete?
    requires AnsweredAtEnd(matches, x, v) || AnsweredOtherwise(matches, x, v)
    ensures Run(matches, NEW_STATE, pieces) != Hung
    ensures Run(matches, NEW_STATE, pieces) == v <==> AnsweredAtEnd(matches, x, v)
    ensures NEW_STATE.Valid()
    ensures !AnsweredAtEnd(matches, x, v) || !AnsweredOtherwise(matches, x, v)
  {
    NotBoth(matches, x, v);
    NeverThrows(matches, x);
  }

  /** The reports tell the verdicts apart. */
  lemma OnlyOneReported(parser: RequestParser, status: Status, v: Verdict, w: Verdict)
    requires Reports(parser, status, v) && w.Complete?
    ensures Reports(parser, status, w) <==> v == w
  {
  }
}
